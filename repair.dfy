/** `ConfigManager.validate_and_repair_config` (lib/config_manager.py): a
    loaded layout configuration is copied section by section into a fresh
    parser, every option checked against the form it must have and replaced
    by a fixed default when it does not. */
module ConfigRepair {
  import opened Common
  import opened Text
  import opened Ini

  const DEFAULT_POSITION := "0,0"
  const DEFAULT_SIZE := "100,100"

  /** `re.match(r"^-?\d+,-?\d+$", v)`. */
  predicate IsPosition(v: string)
  {
    ParseIntPair(v).Some?
  }

  /** `re.match(r"^\d+,\d+$", v)`. */
  predicate IsSize(v: string)
  {
    var p := Split(v, ',');
    |p| == 2 && IsNatLiteral(p[0]) && IsNatLiteral(p[1])
  }

  predicate IsFlagKey(key: string)
  {
    key == "always_on_top" || key == "titlebar"
  }

  predicate KnownKey(key: string)
  {
    key == "position" || key == "size" || IsFlagKey(key)
  }

  /** The form every option of a repaired configuration has. */
  predicate ValidOption(key: string, v: string)
  {
    if key == "position" then IsPosition(v)
    else if key == "size" then IsSize(v)
    else if IsFlagKey(key) then v == "true" || v == "false"
    else v != [] && Strip(v) == v
  }

  lemma DefaultsValid()
    ensures IsPosition(DEFAULT_POSITION)
    ensures IsSize(DEFAULT_SIZE)
  {
    PairRoundTrip(0, 0);
    assert PairToString(0, 0) == DEFAULT_POSITION;
    SplitJoin(["100", "100"], ',');
    assert Join(["100", "100"], ',') == DEFAULT_SIZE;
  }

  lemma FlagWordsLower()
    ensures Lower("true") == "true" && Lower("false") == "false"
  {
    LowerFixed("true");
    LowerFixed("false");
  }

  /** The value one option gets in the repaired configuration (`None`: the
      option is dropped). */
  function RepairOption(key: string, value: string): (r: Option<string>)
    ensures r.Some? ==> ValidOption(key, r.value)
    ensures ValidOption(key, value) ==> r == Some(value)
  {
    if key == "position" then
      DefaultsValid();
      Some(if IsPosition(value) then value else DEFAULT_POSITION)
    else if key == "size" then
      DefaultsValid();
      Some(if IsSize(value) then value else DEFAULT_SIZE)
    else if IsFlagKey(key) then
      FlagWordsLower();
      if Lower(value) == "true" || Lower(value) == "false" then Some(Lower(value))
      else Some(if key == "always_on_top" then "false" else "true")
    else if Strip(value) != [] then
      StripIdempotent(value);
      Some(Strip(value))
    else None
  }

  /** The four known options always survive, with their fixed defaults
      in place of a value of the wrong form; any other option is dropped
      exactly when its value is blank. */
  lemma RepairOptionCases(key: string, value: string)
    ensures var r := RepairOption(key, value);
      && (r.None? <==> !KnownKey(key) && Strip(value) == [])
      && (key == "position" && !IsPosition(value) ==> r == Some(DEFAULT_POSITION))
      && (key == "size" && !IsSize(value) ==> r == Some(DEFAULT_SIZE))
      && (key == "always_on_top" && r != Some(Lower(value)) ==> r == Some("false"))
      && (key == "titlebar" && r != Some(Lower(value)) ==> r == Some("true"))
  {
  }

  /** The options that survive, in order: `valid_items` of the source. */
  function RepairItems(items: Items): (r: Items)
    ensures UniqueKeys(r)
    ensures forall i :: 0 <= i < |r| ==> ValidOption(r[i].0, r[i].1)
  {
    if items == [] then []
    else
      var r := RepairItems(items[..|items| - 1]);
      var (k, v) := items[|items| - 1];
      match RepairOption(k, v)
      case None => r
      case Some(w) => Put(r, k, w)
  }

  /** Option by option, the repaired dictionary holds the repaired value. */
  lemma {:induction false} RepairItemsGet(items: Items, k: string)
    requires UniqueKeys(items)
    ensures Get(RepairItems(items), k) ==
      match Get(items, k)
      case None => None
      case Some(v) => RepairOption(k, v)
    decreases |items|
  {
    if items != [] {
      var init := items[..|items| - 1];
      var x := items[|items| - 1];
      assert items == init + [x];
      assert UniqueKeys(init);
      RepairItemsGet(init, k);
      assert x.0 !in Keys(init) by {
        forall i | 0 <= i < |init| ensures Keys(init)[i] != x.0 {
          assert items[i].0 != items[|items| - 1].0;
        }
      }
      GetSnoc(init, x, k);
      match RepairOption(x.0, x.1)
      case None =>
      case Some(w) => PutGet(RepairItems(init), x.0, w, k);
    }
  }

  /** A dictionary of valid options is repaired to itself. */
  lemma {:induction false} RepairItemsFixed(items: Items)
    requires UniqueKeys(items)
    requires forall i :: 0 <= i < |items| ==> ValidOption(items[i].0, items[i].1)
    ensures RepairItems(items) == items
    decreases |items|
  {
    if items != [] {
      var init := items[..|items| - 1];
      var (k, v) := items[|items| - 1];
      RepairItemsFixed(init);
      assert k !in Keys(init) by {
        forall i | 0 <= i < |init| ensures Keys(init)[i] != k {
          assert items[i].0 != items[|items| - 1].0;
        }
      }
      assert items == init + [(k, v)];
    }
  }

  /** A dictionary of known options keeps every option, in order. */
  lemma {:induction false} RepairItemsKeepsKnownKeys(items: Items)
    requires UniqueKeys(items)
    requires forall i :: 0 <= i < |items| ==> KnownKey(items[i].0)
    ensures Keys(RepairItems(items)) == Keys(items)
    decreases |items|
  {
    if items != [] {
      var init := items[..|items| - 1];
      var x := items[|items| - 1];
      assert items == init + [x];
      RepairItemsKeepsKnownKeys(init);
      RepairOptionCases(x.0, x.1);
      assert x.0 !in Keys(init) by {
        forall i | 0 <= i < |init| ensures Keys(init)[i] != x.0 {
          assert items[i].0 != items[|items| - 1].0;
        }
      }
      KeysSnoc(RepairItems(init), (x.0, RepairOption(x.0, x.1).value));
      KeysSnoc(init, x);
    }
  }

  /** `not section.strip() or section.upper() == "DEFAULT"` is false. */
  predicate KeepSection(name: string)
  {
    Strip(name) != [] && Upper(name) != DEFAULT_SECTION
  }

  lemma KeptIsOrdinary(name: string)
    requires KeepSection(name)
    ensures !ToDefaults(name)
  {
    assert Upper(DEFAULT_SECTION) == DEFAULT_SECTION;
  }

  /** The property every section of a repaired configuration has. */
  predicate RepairedSection(s: Section)
  {
    && KeepSection(s.name)
    && s.items != []
    && UniqueKeys(s.items)
    && forall i :: 0 <= i < |s.items| ==> ValidOption(s.items[i].0, s.items[i].1)
  }

  /** What one section becomes; `None` when it is skipped or left empty. */
  function RepairSection(defaults: Items, s: Section): (r: Option<Section>)
    ensures r.Some? ==> r.value.name == s.name && RepairedSection(r.value)
  {
    if !KeepSection(s.name) then None
    else
      var items := RepairItems(Update(defaults, s.items));
      if items == [] then None else Some(Section(s.name, items))
  }

  /** Every section's fate, in order. */
  function RepairedSections(defaults: Items, secs: seq<Section>): (r: seq<Option<Section>>)
    ensures |r| == |secs|
    ensures forall i :: 0 <= i < |secs| ==> r[i] == RepairSection(defaults, secs[i])
  {
    seq(|secs|, i requires 0 <= i < |secs| => RepairSection(defaults, secs[i]))
  }

  /** `validate_and_repair_config(config)`: a fresh parser with no defaults
      holding the repaired sections that survive. */
  function Repair(c: Config): Config
  {
    Config([], Somes(RepairedSections(c.defaults, c.sections)))
  }

  /** Sections are never reordered: the repaired configuration lists, in
      order, exactly the repaired forms of the sections that survive. */
  lemma RepairKeepsOrder(c: Config)
    ensures var r := Repair(c).sections;
      var idx := SomeIndices(RepairedSections(c.defaults, c.sections));
      && |r| == |idx|
      && (forall j :: 0 <= j < |idx| ==> idx[j] < |c.sections|)
      && (forall j, k :: 0 <= j < k < |idx| ==> idx[j] < idx[k])
      && (forall j :: 0 <= j < |r| ==> Some(r[j]) == RepairSection(c.defaults, c.sections[idx[j]]))
      && (forall i :: 0 <= i < |c.sections| && RepairSection(c.defaults, c.sections[i]).Some? ==> i in idx)
  {
    SomesAt(RepairedSections(c.defaults, c.sections));
  }

  /** Every section of the result is repaired, and no two share a name. */
  lemma RepairValid(c: Config)
    requires Valid(c)
    ensures Valid(Repair(c))
    ensures forall j :: 0 <= j < |Repair(c).sections| ==> RepairedSection(Repair(c).sections[j])
  {
    var opts := RepairedSections(c.defaults, c.sections);
    var r := Repair(c).sections;
    RepairKeepsOrder(c);
    var idx := SomeIndices(opts);
    forall j | 0 <= j < |r| ensures RepairedSection(r[j]) && r[j].name == c.sections[idx[j]].name {
      assert Some(r[j]) == RepairSection(c.defaults, c.sections[idx[j]]);
    }
    forall j, k | 0 <= j < k < |r| ensures Names(Repair(c))[j] != Names(Repair(c))[k] {
      assert Names(c)[idx[j]] != Names(c)[idx[k]];
    }
    forall j | 0 <= j < |r| ensures Names(Repair(c))[j] != DEFAULT_SECTION {
      KeptIsOrdinary(r[j].name);
    }
  }

  /** Repairing a repaired configuration changes nothing. */
  lemma RepairIdempotent(c: Config)
    ensures Repair(Repair(c)) == Repair(c)
  {
    var r := Repair(c).sections;
    var opts := RepairedSections(c.defaults, c.sections);
    SomesAt(opts);
    var idx := SomeIndices(opts);
    var again := RepairedSections([], r);
    forall j | 0 <= j < |r| ensures again[j] == Some(r[j]) {
      assert opts[idx[j]] == Some(r[j]);
      RepairedSectionFixed(r[j]);
    }
    SomesOfAll(r, again);
  }

  lemma RepairedSectionFixed(s: Section)
    requires RepairedSection(s)
    ensures RepairSection([], s) == Some(s)
  {
    UpdateFresh([], s.items);
    assert [] + s.items == s.items;
    RepairItemsFixed(s.items);
  }

  /** The method as the source writes it: a loop over the sections that
      fills `valid_items` for each and copies them into a fresh parser. */
  method RepairConfig(config: Config) returns (repaired: Config)
    requires Valid(config)
    ensures repaired == Repair(config)
  {
    var secs := config.sections;
    ghost var opts := RepairedSections(config.defaults, secs);
    repaired := Empty;
    for i := 0 to |secs|
      invariant repaired == Config([], Somes(opts[..i]))
      invariant Valid(repaired)
    {
      assert opts[..i + 1][..i] == opts[..i];
      ghost var before := repaired;
      var section := secs[i].name;
      if !KeepSection(section) {
        assert opts[i] == None;
        continue;
      }
      var validItems := RepairItemsLoop(ItemsOf(config, i));
      if validItems != [] {
        NotYetAdded(config, i, opts);
        KeptIsOrdinary(section);
        repaired := AddRepairedSection(repaired, section, validItems);
      }
      assert opts[i] == if validItems != [] then Some(Section(section, validItems)) else None;
    }
    assert opts[..|secs|] == opts;
  }

  /** The loop over `config.items(section)` that fills `valid_items`. */
  method RepairItemsLoop(items: Items) returns (validItems: Items)
    ensures validItems == RepairItems(items)
  {
    validItems := [];
    for j := 0 to |items|
      invariant validItems == RepairItems(items[..j])
    {
      assert items[..j + 1][..j] == items[..j];
      var (key, value) := items[j];
      match RepairOption(key, value)
      case Some(w) => validItems := Put(validItems, key, w);
      case None =>
    }
    assert items[..|items|] == items;
  }

  /** `add_section(section)` followed by `set` for every valid option. */
  method AddRepairedSection(repaired: Config, section: string, validItems: Items) returns (r: Config)
    requires Valid(repaired) && repaired.defaults == []
    requires !ToDefaults(section) && section !in Names(repaired)
    requires UniqueKeys(validItems)
    ensures r == Config([], repaired.sections + [Section(section, validItems)])
    ensures Valid(r)
  {
    var done := repaired.sections;
    r := AddSection(repaired, section).value;
    for j := 0 to |validItems|
      invariant r == Config([], done + [Section(section, validItems[..j])])
      invariant Valid(r)
    {
      LastSectionFound(r, done, section);
      var (key, val) := validItems[j];
      assert key !in Keys(validItems[..j]) by {
        forall m | 0 <= m < j ensures Keys(validItems[..j])[m] != key {
          assert validItems[m].0 != validItems[j].0;
        }
      }
      assert validItems[..j + 1] == validItems[..j] + [(key, val)];
      r := Set(r, section, key, val).value;
    }
    assert validItems[..|validItems|] == validItems;
  }

  /** A section about to be added is not among those added before it. */
  lemma NotYetAdded(config: Config, i: nat, opts: seq<Option<Section>>)
    requires Valid(config) && i < |config.sections|
    requires opts == RepairedSections(config.defaults, config.sections)
    ensures config.sections[i].name !in NamesOf(Somes(opts[..i]))
  {
    var done := Somes(opts[..i]);
    forall j | 0 <= j < |done| ensures NamesOf(done)[j] != config.sections[i].name {
      SomesFrom(opts[..i], j);
      var m :| 0 <= m < i && opts[..i][m] == Some(done[j]);
      assert Names(config)[m] != Names(config)[i];
    }
  }

  lemma LastSectionFound(c: Config, done: seq<Section>, name: string)
    requires |c.sections| == |done| + 1 && c.sections[..|done|] == done
    requires c.sections[|done|].name == name && name !in NamesOf(done)
    ensures Find(c, name) == Some(|done|)
  {
    forall m | 0 <= m < |done| ensures c.sections[m].name != name {
      assert NamesOf(done)[m] != name;
    }
  }
}
