/** The configuration directory as both configuration managers see it
    (lib/config_manager.py and config_manager.py share this code): the
    `config_<name>.ini` naming scheme, the sorted listing, loading,
    deletion, and the search for the configuration to open first. */
module ConfigFiles {
  import opened Common
  import opened Text
  import opened Sorting
  import opened Ini
  import opened TitleCleaner

  const PREFIX := "config_"
  const SUFFIX := ".ini"
  const AOT_KEY := "always_on_top"

  /** What `ConfigParser.read` makes of a file: the parsed options, or a
      parse error. A file that cannot be opened is read as an empty parser,
      as `read` silently skips it. */
  datatype FileBody = Parsed(config: Config) | Unparsable

  datatype DirEntry = DirEntry(name: string, body: FileBody)

  /** The configuration directory, in `os.listdir` order. */
  type Dir = seq<DirEntry>

  /** `os.listdir(config_dir)`. */
  function Listing(dir: Dir): (r: seq<string>)
    ensures |r| == |dir|
    ensures forall i :: 0 <= i < |dir| ==> r[i] == dir[i].name
  {
    seq(|dir|, i requires 0 <= i < |dir| => dir[i].name)
  }

  // ----- the naming scheme -----

  /** `f.startswith("config_") and f.endswith(".ini")`. */
  predicate IsConfigFile(f: string)
  {
    |f| >= |PREFIX| && f[..|PREFIX|] == PREFIX && |f| >= |SUFFIX| && f[|f| - |SUFFIX|..] == SUFFIX
  }

  /** `f"config_{name}.ini"`. */
  function ConfigFileName(name: string): string
  {
    PREFIX + name + SUFFIX
  }

  /** Prefix and suffix of a configuration file never overlap. */
  lemma ConfigFileLong(f: string)
    requires IsConfigFile(f)
    ensures |f| >= |PREFIX| + |SUFFIX|
  {
    forall i | 0 <= i < |PREFIX| ensures f[i] != '.' {
      assert f[i] == f[..|PREFIX|][i];
    }
    assert f[|f| - |SUFFIX|] == f[|f| - |SUFFIX|..][0] == '.';
  }

  /** `f[7:-4]`: the display name of a configuration file. */
  function NameOfFile(f: string): (name: string)
    requires IsConfigFile(f)
    ensures ConfigFileName(name) == f
  {
    ConfigFileLong(f);
    var name := f[|PREFIX|..|f| - |SUFFIX|];
    assert f == f[..|PREFIX|] + name + f[|f| - |SUFFIX|..];
    name
  }

  /** Every name gives a configuration file, and its display name is the
      name again. */
  lemma ConfigFileNameRoundTrip(name: string)
    ensures IsConfigFile(ConfigFileName(name))
    ensures NameOfFile(ConfigFileName(name)) == name
  {
    var f := ConfigFileName(name);
    assert f[..|PREFIX|] == PREFIX;
    assert f[|f| - |SUFFIX|..] == SUFFIX;
    assert f[|PREFIX|..|f| - |SUFFIX|] == name;
  }

  // ----- list_config_files -----

  /** The comprehension's filter, keeping the listing order. */
  function ConfigFilesIn(listing: seq<string>): (r: seq<string>)
    ensures forall f :: f in r <==> f in listing && IsConfigFile(f)
  {
    if listing == [] then []
    else
      var init := listing[..|listing| - 1];
      var f := listing[|listing| - 1];
      assert listing == init + [f];
      ConfigFilesIn(init) + (if IsConfigFile(f) then [f] else [])
  }

  /** `list_config_files()`: the configuration files in sorted order, and
      their display names index by index. */
  function ListConfigFiles(listing: seq<string>): (r: (seq<string>, seq<string>))
    ensures SortedStrings(r.0)
    ensures forall f :: f in r.0 <==> f in listing && IsConfigFile(f)
    ensures |r.1| == |r.0|
    ensures forall i :: 0 <= i < |r.0| ==> IsConfigFile(r.0[i]) && ConfigFileName(r.1[i]) == r.0[i]
  {
    var filtered := ConfigFilesIn(listing);
    var files := SortStrings(filtered);
    assert forall f :: f in files <==> f in filtered by {
      forall f ensures f in files <==> f in filtered {
        assert f in files <==> f in multiset(files);
        assert f in filtered <==> f in multiset(filtered);
      }
    }
    (files, seq(|files|, i requires 0 <= i < |files| => NameOfFile(files[i])))
  }

  /** The listed names are exactly those whose `config_<name>.ini` is in
      the directory. */
  lemma ListedNames(listing: seq<string>, name: string)
    ensures name in ListConfigFiles(listing).1 <==> ConfigFileName(name) in listing
  {
    var (files, names) := ListConfigFiles(listing);
    if name in names {
      var i :| 0 <= i < |names| && names[i] == name;
      assert files[i] in listing;
    }
    if ConfigFileName(name) in listing {
      ConfigFileNameRoundTrip(name);
      var f := ConfigFileName(name);
      var i :| 0 <= i < |files| && files[i] == f;
      assert ConfigFileName(names[i]) == f;
      assert names[i] == NameOfFile(f);
    }
  }

  // ----- load_config and the writes of the save operations -----

  /** The body of the first entry named `f`. */
  function FileAt(dir: Dir, f: string): (r: Option<FileBody>)
    ensures r.None? <==> f !in Listing(dir)
  {
    if dir == [] then None
    else if dir[0].name == f then Some(dir[0].body)
    else
      var r := FileAt(dir[1..], f);
      assert Listing(dir) == [dir[0].name] + Listing(dir[1..]);
      r
  }

  /** `load_config(f)`: the parsed file, or `None` when it does not exist
      or does not parse. */
  function LoadConfig(dir: Dir, f: string): (r: Option<Config>)
    ensures r.Some? ==> f in Listing(dir)
  {
    match FileAt(dir, f)
    case Some(Parsed(c)) => Some(c)
    case _ => None
  }

  /** Writing `f` with `open(path, 'w')`: an existing file is overwritten in
      place, a new one is added to the directory. */
  function WriteFile(dir: Dir, f: string, c: Config): (r: Dir)
    ensures forall g :: g in Listing(r) <==> g in Listing(dir) || g == f
    ensures forall g :: g != f ==> FileAt(r, g) == FileAt(dir, g)
  {
    if dir == [] then
      assert Listing([DirEntry(f, Parsed(c))]) == [f];
      [DirEntry(f, Parsed(c))]
    else if dir[0].name == f then
      var r := [DirEntry(f, Parsed(c))] + dir[1..];
      assert Listing(r) == [f] + Listing(dir[1..]);
      assert Listing(dir) == [f] + Listing(dir[1..]);
      r
    else
      var rest := WriteFile(dir[1..], f, c);
      var r := [dir[0]] + rest;
      assert Listing(r) == [dir[0].name] + Listing(rest);
      assert Listing(dir) == [dir[0].name] + Listing(dir[1..]);
      assert r[1..] == rest;
      r
  }

  /** What was written is what is loaded back. */
  lemma {:induction false} WriteThenLoad(dir: Dir, f: string, c: Config)
    ensures LoadConfig(WriteFile(dir, f, c), f) == Some(c)
  {
    if dir != [] && dir[0].name != f {
      WriteThenLoad(dir[1..], f, c);
      assert WriteFile(dir, f, c)[1..] == WriteFile(dir[1..], f, c);
    }
  }

  // ----- delete_config -----

  /** `os.remove(f)`. */
  function RemoveFile(dir: Dir, f: string): (r: Dir)
    ensures forall g :: g in Listing(r) <==> g in Listing(dir) && g != f
  {
    if dir == [] then []
    else
      var rest := RemoveFile(dir[1..], f);
      assert Listing(dir) == [dir[0].name] + Listing(dir[1..]);
      if dir[0].name == f then rest
      else
        assert Listing([dir[0]] + rest) == [dir[0].name] + Listing(rest);
        [dir[0]] + rest
  }

  /** `delete_config(name)`: `removable` says whether `os.remove` succeeds
      on the file. */
  function DeleteConfig(dir: Dir, name: string, removable: bool): (r: (bool, Dir))
  {
    var path := ConfigFileName(name);
    if path in Listing(dir) && removable then (true, RemoveFile(dir, path))
    else (false, dir)
  }

  /** Deleting reports success exactly when the file existed and was
      removed; the name then disappears from the listing and no other name
      does, and on failure the directory is untouched. */
  lemma DeleteConfigSpec(dir: Dir, name: string, removable: bool)
    ensures var (ok, after) := DeleteConfig(dir, name, removable);
      && (ok <==> ConfigFileName(name) in Listing(dir) && removable)
      && (ok ==> name !in ListConfigFiles(Listing(after)).1)
      && (ok ==> forall n :: n != name ==> (n in ListConfigFiles(Listing(after)).1 <==> n in ListConfigFiles(Listing(dir)).1))
      && (!ok ==> after == dir)
  {
    var (ok, after) := DeleteConfig(dir, name, removable);
    if ok {
      ListedNames(Listing(after), name);
      forall n | n != name
        ensures n in ListConfigFiles(Listing(after)).1 <==> n in ListConfigFiles(Listing(dir)).1
      {
        ListedNames(Listing(after), n);
        ListedNames(Listing(dir), n);
        assert ConfigFileName(n) != ConfigFileName(name) by {
          ConfigFileNameRoundTrip(n);
          ConfigFileNameRoundTrip(name);
        }
      }
    }
  }

  // ----- detect_default_config -----

  /** The first decisive outcome of a scan that stops at the first `True`
      and propagates the first exception: the position of the first
      `Ok(true)`, or `None` when every outcome is `Ok(false)`. */
  function FirstDecisive(vs: seq<Result<bool>>): (r: Result<Option<nat>>)
    ensures r.Ok? && r.value.Some? ==>
      r.value.value < |vs| && vs[r.value.value] == Ok(true)
      && forall j :: 0 <= j < r.value.value ==> vs[j] == Ok(false)
    ensures r == Ok(None) <==> forall j :: 0 <= j < |vs| ==> vs[j] == Ok(false)
    ensures r.Err? ==>
      exists k :: 0 <= k < |vs| && vs[k] == Err(r.error) && forall j :: 0 <= j < k ==> vs[j] == Ok(false)
  {
    if vs == [] then Ok(None)
    else match vs[0]
      case Err(e) => Err(e)
      case Ok(true) => Ok(Some(0))
      case Ok(false) =>
        match FirstDecisive(vs[1..])
        case Err(e) =>
          ghost var k :| 0 <= k < |vs[1..]| && vs[1..][k] == Err(e)
            && forall j :: 0 <= j < k ==> vs[1..][j] == Ok(false);
          assert vs[k + 1] == Err(e);
          Err(e)
        case Ok(None) => Ok(None)
        case Ok(Some(k)) => Ok(Some(k + 1))
  }

  /** The outcome at the first `Ok(true)` that only `Ok(false)` precedes
      is the one the scan reports. */
  lemma {:induction false} FirstDecisiveAt(vs: seq<Result<bool>>, k: nat)
    requires k < |vs| && vs[k] == Ok(true)
    requires forall j :: 0 <= j < k ==> vs[j] == Ok(false)
    ensures FirstDecisive(vs) == Ok(Some(k))
  {
    if k > 0 {
      FirstDecisiveAt(vs[1..], k - 1);
    }
  }

  /** `cleaned_section in cleaned_title` for some live window title. */
  predicate TitleMatches(section: string, titles: seq<string>)
  {
    exists t :: t in titles && Contains(CleanWindowTitle(t, true), CleanWindowTitle(section, true))
  }

  /** The test applied to the section at position `i`: an always-on-top
      section whose cleaned name occurs in a cleaned live title. */
  function SectionVerdict(c: Config, i: nat, titles: seq<string>): (r: Result<bool>)
    requires i < |c.sections|
  {
    match GetBoolean(c, i, AOT_KEY, false)
    case Err(e) => Err(e)
    case Ok(aot) => Ok(aot && TitleMatches(c.sections[i].name, titles))
  }

  /** Every section's outcome, in order. */
  function SectionVerdicts(c: Config, titles: seq<string>): (vs: seq<Result<bool>>)
    ensures |vs| == |c.sections|
    ensures forall i :: 0 <= i < |vs| ==> vs[i] == SectionVerdict(c, i, titles)
  {
    seq(|c.sections|, i requires 0 <= i < |c.sections| => SectionVerdict(c, i, titles))
  }

  /** The loop over `config.sections()`: whether some section passes. */
  function ConfigVerdict(c: Config, titles: seq<string>): (r: Result<bool>)
  {
    match FirstDecisive(SectionVerdicts(c, titles))
    case Err(e) => Err(e)
    case Ok(hit) => Ok(hit.Some?)
  }

  /** A configuration passes exactly when, scanning its sections in order,
      an always-on-top section matching a live title comes before any
      section whose flag does not parse. */
  lemma ConfigVerdictSpec(c: Config, titles: seq<string>)
    ensures ConfigVerdict(c, titles) == Ok(true) <==>
      exists k :: 0 <= k < |c.sections| && SectionVerdict(c, k, titles) == Ok(true)
        && forall j :: 0 <= j < k ==> SectionVerdict(c, j, titles) == Ok(false)
  {
    var vs := SectionVerdicts(c, titles);
    forall k | 0 <= k < |c.sections| && SectionVerdict(c, k, titles) == Ok(true)
        && (forall j :: 0 <= j < k ==> SectionVerdict(c, j, titles) == Ok(false))
      ensures FirstDecisive(vs) == Ok(Some(k))
    {
      FirstDecisiveAt(vs, k);
    }
    if FirstDecisive(vs).Ok? && FirstDecisive(vs).value.Some? {
      var m := FirstDecisive(vs).value.value;
      assert vs[m] == Ok(true);
    }
  }

  /** The test applied to one file: a file that does not load is skipped,
      since `load_config` returns `None` for it. */
  function FileVerdict(dir: Dir, f: string, titles: seq<string>): (r: Result<bool>)
    ensures LoadConfig(dir, f).None? ==> r == Ok(false)
  {
    match LoadConfig(dir, f)
    case None => Ok(false)
    case Some(c) => ConfigVerdict(c, titles)
  }

  /** `detect_default_config()`, with the titles `gw.getAllTitles()`
      reports as a parameter: the name of the first configuration file
      that passes the test, else the first name, else `None`. A flag that
      does not parse raises out of the search. */
  function DetectDefault(dir: Dir, titles: seq<string>): (r: Result<Option<string>>)
    ensures r.Ok? && r.value.Some? ==> ConfigFileName(r.value.value) in Listing(dir)
  {
    var (files, names) := ListConfigFiles(Listing(dir));
    match FirstDecisive(seq(|files|, j requires 0 <= j < |files| => FileVerdict(dir, files[j], titles)))
    case Err(e) => Err(e)
    // `config_names[config_files.index(f)]` is the name of `f` itself
    case Ok(Some(k)) => Ok(Some(names[k]))
    case Ok(None) => Ok(if names == [] then None else Some(names[0]))
  }

  /** The result of the search: the first file in sorted order that passes
      the test wins; when no file passes and none raises, the first name is
      chosen, or `None` for an empty directory. */
  lemma DetectDefaultSpec(dir: Dir, titles: seq<string>)
    ensures var (files, names) := ListConfigFiles(Listing(dir));
      && (forall k :: 0 <= k < |files| && FileVerdict(dir, files[k], titles) == Ok(true)
            && (forall j :: 0 <= j < k ==> FileVerdict(dir, files[j], titles) == Ok(false))
            ==> DetectDefault(dir, titles) == Ok(Some(names[k])))
      && ((forall j :: 0 <= j < |files| ==> FileVerdict(dir, files[j], titles) == Ok(false))
            ==> DetectDefault(dir, titles) == Ok(if names == [] then None else Some(names[0])))
  {
    var (files, names) := ListConfigFiles(Listing(dir));
    var vs := seq(|files|, j requires 0 <= j < |files| => FileVerdict(dir, files[j], titles));
    forall k | 0 <= k < |files| && FileVerdict(dir, files[k], titles) == Ok(true)
        && (forall j :: 0 <= j < k ==> FileVerdict(dir, files[j], titles) == Ok(false))
      ensures FirstDecisive(vs) == Ok(Some(k))
    {
      FirstDecisiveAt(vs, k);
    }
  }
}
