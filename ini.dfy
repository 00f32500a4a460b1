/** Python's `configparser.ConfigParser`, as far as the application uses it:
    an ordered list of named sections, each an ordered dictionary of string
    options, plus the `DEFAULT` section whose options every section inherits.
    Reading and writing the INI text format and value interpolation are not
    part of this model. */
module Ini {
  import opened Common
  import opened Text

  /** An ordered dictionary of option names to values. */
  type Items = seq<(string, string)>

  const DEFAULT_SECTION := "DEFAULT"

  function Keys(items: Items): (r: seq<string>)
    ensures |r| == |items|
  {
    seq(|items|, i requires 0 <= i < |items| => items[i].0)
  }

  predicate UniqueKeys(items: Items)
  {
    forall i, j :: 0 <= i < j < |items| ==> items[i].0 != items[j].0
  }

  /** Position of the first option named `k`, searching from `i`. */
  function KeyIndex(items: Items, k: string, i: nat): (r: Option<nat>)
    requires i <= |items|
    ensures r.None? <==> forall j :: i <= j < |items| ==> items[j].0 != k
    ensures r.Some? ==> i <= r.value < |items| && items[r.value].0 == k
    ensures r.Some? ==> forall j :: i <= j < r.value ==> items[j].0 != k
    decreases |items| - i
  {
    if i == |items| then None
    else if items[i].0 == k then Some(i)
    else KeyIndex(items, k, i + 1)
  }

  /** The search depends on the option names only. */
  lemma {:induction false} KeyIndexSameKeys(a: Items, b: Items, k: string, i: nat)
    requires i <= |a| == |b|
    requires forall j :: i <= j < |a| ==> (a[j].0 == k <==> b[j].0 == k)
    ensures KeyIndex(a, k, i) == KeyIndex(b, k, i)
    decreases |a| - i
  {
    if i < |a| && a[i].0 != k {
      KeyIndexSameKeys(a, b, k, i + 1);
    }
  }

  lemma {:induction false} KeyIndexAppend(a: Items, x: (string, string), k: string, i: nat)
    requires i <= |a| && x.0 != k
    ensures KeyIndex(a + [x], k, i) == KeyIndex(a, k, i)
    decreases |a| - i
  {
    if i < |a| && a[i].0 != k {
      assert (a + [x])[i] == a[i];
      KeyIndexAppend(a, x, k, i + 1);
    } else if i < |a| {
      assert (a + [x])[i] == a[i];
    }
  }

  lemma {:induction false} KeyIndexLast(a: Items, x: (string, string), i: nat)
    requires i <= |a|
    requires forall j :: i <= j < |a| ==> a[j].0 != x.0
    ensures KeyIndex(a + [x], x.0, i) == Some(|a|)
    decreases |a| - i
  {
    if i < |a| {
      assert (a + [x])[i] == a[i];
      KeyIndexLast(a, x, i + 1);
    } else {
      assert (a + [x])[i] == x;
    }
  }

  /** `d.get(k)`. */
  function Get(items: Items, k: string): (r: Option<string>)
    ensures r.None? <==> k !in Keys(items)
  {
    match KeyIndex(items, k, 0)
    case None =>
      assert forall j :: 0 <= j < |items| ==> Keys(items)[j] != k;
      None
    case Some(i) =>
      assert Keys(items)[i] == k;
      Some(items[i].1)
  }

  lemma GetAt(items: Items, i: nat)
    requires i < |items| && UniqueKeys(items)
    ensures Get(items, items[i].0) == Some(items[i].1)
  {
  }

  /** Looking up a key in a dictionary with one more option at the end. */
  lemma GetSnoc(a: Items, x: (string, string), k: string)
    requires x.0 !in Keys(a)
    ensures Get(a + [x], k) == if x.0 == k then Some(x.1) else Get(a, k)
  {
    if x.0 == k {
      assert forall j :: 0 <= j < |a| ==> a[j].0 != x.0 by {
        forall j | 0 <= j < |a| ensures a[j].0 != x.0 { assert Keys(a)[j] == a[j].0; }
      }
      KeyIndexLast(a, x, 0);
    } else {
      KeyIndexAppend(a, x, k, 0);
    }
  }

  /** `d[k] = v`: a new key goes to the end, an existing key keeps its place. */
  function Put(items: Items, k: string, v: string): (r: Items)
    ensures |r| >= |items|
    ensures forall i :: 0 <= i < |r| ==> r[i] == (k, v) || (i < |items| && r[i] == items[i])
    ensures k in Keys(items) ==> Keys(r) == Keys(items)
    ensures k !in Keys(items) ==> r == items + [(k, v)]
    ensures UniqueKeys(items) ==> UniqueKeys(r)
  {
    match KeyIndex(items, k, 0)
    case Some(i) =>
      var r := items[i := (k, v)];
      assert Keys(items)[i] == k;
      assert Keys(r) == Keys(items);
      r
    case None =>
      assert k !in Keys(items) by {
        forall j | 0 <= j < |items| ensures Keys(items)[j] != k { }
      }
      items + [(k, v)]
  }

  /** What `Put` stores: `k` now has the value `v`, and every other key
      keeps its value. */
  lemma PutGet(items: Items, k: string, v: string, k': string)
    ensures Get(Put(items, k, v), k') == if k' == k then Some(v) else Get(items, k')
  {
    var r := Put(items, k, v);
    match KeyIndex(items, k, 0)
    case Some(i) =>
      KeyIndexSameKeys(r, items, k', 0);
    case None =>
      if k' == k {
        assert r[|items|].0 == k;
        assert KeyIndex(r, k, 0) == Some(|items|) by {
          KeyIndexSameKeys(r[..|items|], items, k, 0);
          assert r[..|items|] == items;
        }
      } else {
        KeyIndexAppend(items, (k, v), k', 0);
      }
  }

  /** `d.update(e)`, applying the options of `e` one by one in order. */
  function Update(base: Items, over: Items): (r: Items)
    ensures UniqueKeys(base) ==> UniqueKeys(r)
    decreases |over|
  {
    if over == [] then base else Update(Put(base, over[0].0, over[0].1), over[1..])
  }

  /** After `d.update(e)` a key has its value from `e` if `e` has it, and
      from `d` otherwise. */
  lemma {:induction false} UpdateGet(base: Items, over: Items, k: string)
    requires UniqueKeys(over)
    ensures Get(Update(base, over), k) == if k in Keys(over) then Get(over, k) else Get(base, k)
    decreases |over|
  {
    if over != [] {
      var b := Put(base, over[0].0, over[0].1);
      var rest := over[1..];
      assert UniqueKeys(rest);
      UpdateGet(b, rest, k);
      PutGet(base, over[0].0, over[0].1, k);
      KeysCons(over);
      if k == over[0].0 {
        assert k !in Keys(rest) by {
          forall i | 0 <= i < |rest| ensures Keys(rest)[i] != k {
            assert over[i + 1].0 != over[0].0;
          }
        }
        assert KeyIndex(over, k, 0) == Some(0);
      } else {
        KeyIndexSameKeys(over, over, k, 0);
        GetTail(over, k);
      }
    }
  }

  lemma KeysCons(items: Items)
    requires items != []
    ensures Keys(items) == [items[0].0] + Keys(items[1..])
  {
  }

  lemma KeysSnoc(items: Items, x: (string, string))
    ensures Keys(items + [x]) == Keys(items) + [x.0]
  {
  }

  /** Looking up a key other than the first one skips the first entry. */
  lemma GetTail(items: Items, k: string)
    requires items != [] && items[0].0 != k
    ensures Get(items, k) == Get(items[1..], k)
  {
    KeyIndexShift(items, k, 1);
  }

  lemma {:induction false} KeyIndexShift(items: Items, k: string, i: nat)
    requires 1 <= i <= |items|
    ensures KeyIndex(items, k, i) == match KeyIndex(items[1..], k, i - 1)
      case None => None
      case Some(j) => Some(j + 1)
    decreases |items| - i
  {
    if i < |items| {
      assert items[1..][i - 1] == items[i];
      if items[i].0 != k { KeyIndexShift(items, k, i + 1); }
    }
  }

  /** Updating a dictionary with options it already has keeps its key order. */
  lemma {:induction false} UpdateKeysKnown(base: Items, over: Items)
    requires forall i :: 0 <= i < |over| ==> over[i].0 in Keys(base)
    ensures Keys(Update(base, over)) == Keys(base)
    decreases |over|
  {
    if over != [] {
      var b := Put(base, over[0].0, over[0].1);
      UpdateKeysKnown(b, over[1..]);
    }
  }

  /** Updating with options a dictionary does not have appends their keys
      in order. */
  lemma UpdateKeysFresh(base: Items, over: Items)
    requires UniqueKeys(over)
    requires forall i :: 0 <= i < |over| ==> over[i].0 !in Keys(base)
    ensures Keys(Update(base, over)) == Keys(base) + Keys(over)
  {
    UpdateFresh(base, over);
    KeysAppend(base, over);
  }

  lemma KeysAppend(a: Items, b: Items)
    ensures Keys(a + b) == Keys(a) + Keys(b)
  {
    assert forall i :: 0 <= i < |a + b| ==> Keys(a + b)[i] == (Keys(a) + Keys(b))[i];
  }

  /** Updating with fresh, distinct options appends them. */
  lemma {:induction false} UpdateFresh(base: Items, over: Items)
    requires UniqueKeys(over)
    requires forall i :: 0 <= i < |over| ==> over[i].0 !in Keys(base)
    ensures Update(base, over) == base + over
    decreases |over|
  {
    if over != [] {
      var b := base + [over[0]];
      FreshTail(base, over);
      UpdateFresh(b, over[1..]);
      AppendHead(base, over);
    }
  }

  /** The first fresh option is appended, and the others stay fresh. */
  lemma FreshTail(base: Items, over: Items)
    requires over != [] && UniqueKeys(over)
    requires forall i :: 0 <= i < |over| ==> over[i].0 !in Keys(base)
    ensures Put(base, over[0].0, over[0].1) == base + [over[0]]
    ensures UniqueKeys(over[1..])
    ensures forall i :: 0 <= i < |over| - 1 ==> over[1..][i].0 !in Keys(base + [over[0]])
  {
    var rest := over[1..];
    KeysSnoc(base, over[0]);
    forall i | 0 <= i < |rest| ensures rest[i].0 !in Keys(base + [over[0]]) {
      assert rest[i] == over[i + 1];
      assert over[i + 1].0 != over[0].0;
    }
    forall i, j | 0 <= i < j < |rest| ensures rest[i].0 != rest[j].0 {
      assert rest[i] == over[i + 1] && rest[j] == over[j + 1];
    }
  }

  datatype Section = Section(name: string, items: Items)

  /** A parser: the `DEFAULT` options and the other sections in order. */
  datatype Config = Config(defaults: Items, sections: seq<Section>)

  const Empty := Config([], [])

  function NamesOf(secs: seq<Section>): (r: seq<string>)
    ensures |r| == |secs|
    ensures forall i :: 0 <= i < |r| ==> r[i] == secs[i].name
  {
    seq(|secs|, i requires 0 <= i < |secs| => secs[i].name)
  }

  /** `config.sections()`. */
  function Names(c: Config): (r: seq<string>)
    ensures |r| == |c.sections|
    ensures forall i :: 0 <= i < |r| ==> r[i] == c.sections[i].name
  {
    NamesOf(c.sections)
  }

  /** What every parser object satisfies: distinct section names, none of
      them `DEFAULT`, and distinct option names in every dictionary. */
  predicate Valid(c: Config)
  {
    && NoDup(Names(c))
    && DEFAULT_SECTION !in Names(c)
    && UniqueKeys(c.defaults)
    && forall i :: 0 <= i < |c.sections| ==> UniqueKeys(c.sections[i].items)
  }

  /** Position of a section. */
  function Find(c: Config, name: string): (r: Option<nat>)
    ensures r.None? <==> name !in Names(c)
    ensures r.Some? ==> r.value < |c.sections| && c.sections[r.value].name == name
  {
    FindFrom(c.sections, name, 0)
  }

  function FindFrom(secs: seq<Section>, name: string, i: nat): (r: Option<nat>)
    requires i <= |secs|
    ensures r.None? <==> forall j :: i <= j < |secs| ==> secs[j].name != name
    ensures r.Some? ==> i <= r.value < |secs| && secs[r.value].name == name
    decreases |secs| - i
  {
    if i == |secs| then None
    else if secs[i].name == name then Some(i)
    else FindFrom(secs, name, i + 1)
  }

  /** `set` sends options of the sections named `""` and `DEFAULT` to the
      defaults. */
  predicate ToDefaults(name: string)
  {
    name == "" || name == DEFAULT_SECTION
  }

  /** The option store `set(name, k, v)` writes to, for an existing target. */
  function PutIn(c: Config, name: string, k: string, v: string): (r: Config)
    requires ToDefaults(name) || name in Names(c)
    ensures Names(r) == Names(c)
    ensures Valid(c) ==> Valid(r)
  {
    if ToDefaults(name) then c.(defaults := Put(c.defaults, k, v))
    else
      var i := Find(c, name).value;
      var r := c.(sections := c.sections[i := Section(name, Put(c.sections[i].items, k, v))]);
      assert Names(r) == Names(c);
      r
  }

  /** `config.add_section(name)`. */
  function AddSection(c: Config, name: string): (r: Result<Config>)
    ensures name == DEFAULT_SECTION ==> r == Err(ValueError)
    ensures name != DEFAULT_SECTION && name in Names(c) ==> r == Err(ConfigError)
    ensures r.Ok? ==> Names(r.value) == Names(c) + [name] && r.value.defaults == c.defaults
    ensures r.Ok? && Valid(c) ==> Valid(r.value)
  {
    if name == DEFAULT_SECTION then Err(ValueError)
    else if name in Names(c) then Err(ConfigError)
    else
      var r := Config(c.defaults, c.sections + [Section(name, [])]);
      assert Names(r) == Names(c) + [name];
      Ok(r)
  }

  /** `config.set(name, k, v)`. */
  function Set(c: Config, name: string, k: string, v: string): (r: Result<Config>)
    ensures r.Err? <==> !ToDefaults(name) && name !in Names(c)
    ensures r.Ok? ==> Names(r.value) == Names(c)
    ensures r.Ok? && Valid(c) ==> Valid(r.value)
  {
    if ToDefaults(name) || name in Names(c) then Ok(PutIn(c, name, k, v))
    else Err(ConfigError)
  }

  function SetAll(c: Config, name: string, d: Items): (r: Config)
    requires ToDefaults(name) || name in Names(c)
    ensures Names(r) == Names(c)
    ensures Valid(c) ==> Valid(r)
    decreases |d|
  {
    if d == [] then c else SetAll(PutIn(c, name, d[0].0, d[0].1), name, d[1..])
  }

  /** `config[name] = d`: the target section is emptied (or created at the
      end), then every option of `d` is set in it. */
  function Assign(c: Config, name: string, d: Items): (r: Config)
    ensures name == DEFAULT_SECTION ==> Names(r) == Names(c)
    ensures name != DEFAULT_SECTION && name in Names(c) ==> Names(r) == Names(c)
    ensures name != DEFAULT_SECTION && name !in Names(c) ==> Names(r) == Names(c) + [name]
    ensures Valid(c) ==> Valid(r)
  {
    var cleared :=
      if name == DEFAULT_SECTION then c.(defaults := [])
      else match Find(c, name)
        case Some(i) => c.(sections := c.sections[i := Section(name, [])])
        case None => c;
    assert Names(cleared) == Names(c);
    assert Valid(c) ==> Valid(cleared);
    var added :=
      if name == DEFAULT_SECTION || name in Names(c) then cleared
      else AddSection(cleared, name).value;
    SetAll(added, name, d)
  }

  /** Setting options into a named section touches that section only. */
  lemma {:induction false} SetAllSection(c: Config, name: string, d: Items, i: nat)
    requires !ToDefaults(name) && i < |c.sections| && c.sections[i].name == name
    requires NoDup(Names(c))
    ensures var r := SetAll(c, name, d);
      && r.defaults == c.defaults
      && |r.sections| == |c.sections|
      && r.sections[i] == Section(name, Update(c.sections[i].items, d))
      && forall j :: 0 <= j < |c.sections| && j != i ==> r.sections[j] == c.sections[j]
    decreases |d|
  {
    if d != [] {
      var c1 := PutIn(c, name, d[0].0, d[0].1);
      assert Find(c, name) == Some(i) by {
        var f := Find(c, name).value;
        assert Names(c)[f] == Names(c)[i];
      }
      SetAllSection(c1, name, d[1..], i);
    }
  }

  /** Setting options into `""` or `DEFAULT` touches the defaults only. */
  lemma {:induction false} SetAllDefaults(c: Config, name: string, d: Items)
    requires ToDefaults(name)
    ensures SetAll(c, name, d) == c.(defaults := Update(c.defaults, d))
    decreases |d|
  {
    if d != [] {
      SetAllDefaults(PutIn(c, name, d[0].0, d[0].1), name, d[1..]);
    }
  }

  /** `config[name] = d` for an ordinary name: the section holds exactly `d`,
      at its old position if it existed and at the end otherwise; the
      defaults and every other section are unchanged. */
  lemma AssignSection(c: Config, name: string, d: Items)
    requires !ToDefaults(name) && NoDup(Names(c))
    ensures var r := Assign(c, name, d);
      var i := if name in Names(c) then Find(c, name).value else |c.sections|;
      && r.defaults == c.defaults
      && i < |r.sections|
      && r.sections[i] == Section(name, Update([], d))
      && forall j :: 0 <= j < |c.sections| && j != i ==> r.sections[j] == c.sections[j]
  {
    if name in Names(c) {
      var i := Find(c, name).value;
      var cleared := c.(sections := c.sections[i := Section(name, [])]);
      assert Names(cleared) == Names(c);
      SetAllSection(cleared, name, d, i);
    } else {
      var added := AddSection(c, name).value;
      assert Names(added) == Names(c) + [name];
      SetAllSection(added, name, d, |c.sections|);
    }
  }

  /** `config[""] = d` creates (or empties) a section `""`, but `set` sends
      the options of `d` into the defaults. */
  lemma AssignBlank(c: Config, d: Items)
    requires NoDup(Names(c))
    ensures var r := Assign(c, "", d);
      var i := if "" in Names(c) then Find(c, "").value else |c.sections|;
      && r.defaults == Update(c.defaults, d)
      && i < |r.sections|
      && r.sections[i] == Section("", [])
      && forall j :: 0 <= j < |c.sections| && j != i ==> r.sections[j] == c.sections[j]
  {
    var cleared := if "" in Names(c) then c.(sections := c.sections[Find(c, "").value := Section("", [])]) else c;
    var added := if "" in Names(c) then cleared else AddSection(cleared, "").value;
    SetAllDefaults(added, "", d);
  }

  /** `config["DEFAULT"] = d` replaces the defaults by `d`. */
  lemma AssignDefault(c: Config, d: Items)
    ensures Assign(c, DEFAULT_SECTION, d) == Config(Update([], d), c.sections)
  {
    SetAllDefaults(c.(defaults := []), DEFAULT_SECTION, d);
  }

  /** `config.items(name)` for the section at position `i`: the defaults
      updated with the section's own options. */
  function ItemsOf(c: Config, i: nat): (r: Items)
    requires i < |c.sections|
    ensures Valid(c) ==> UniqueKeys(r)
  {
    Update(c.defaults, c.sections[i].items)
  }

  /** `configparser`'s table of boolean words, matched after lower-casing. */
  function BooleanWord(v: string): (r: Option<bool>)
    ensures r == Some(true) <==> Lower(v) in {"1", "yes", "true", "on"}
    ensures r == Some(false) <==> Lower(v) in {"0", "no", "false", "off"}
  {
    var w := Lower(v);
    if w in {"1", "yes", "true", "on"} then Some(true)
    else if w in {"0", "no", "false", "off"} then Some(false)
    else None
  }

  /** `config[name].getboolean(key, fallback=fallback)` for the section at
      position `i`: the section's own option, else the default one, else the
      fallback; a value outside the boolean table raises `ValueError`. */
  function GetBoolean(c: Config, i: nat, key: string, fallback: bool): (r: Result<bool>)
    requires i < |c.sections|
  {
    var v := match Get(c.sections[i].items, key)
      case Some(s) => Some(s)
      case None => Get(c.defaults, key);
    match v
    case None => Ok(fallback)
    case Some(s) =>
      match BooleanWord(s)
      case Some(b) => Ok(b)
      case None => Err(ValueError)
  }

  /** The value `getboolean` looks at is the one `items()` reports. */
  lemma GetBooleanSeesItems(c: Config, i: nat, key: string, fallback: bool)
    requires i < |c.sections| && Valid(c)
    ensures GetBoolean(c, i, key, fallback) ==
      match Get(ItemsOf(c, i), key)
      case None => Ok(fallback)
      case Some(s) => if BooleanWord(s).Some? then Ok(BooleanWord(s).value) else Err(ValueError)
  {
    UpdateGet(c.defaults, c.sections[i].items, key);
  }
}
