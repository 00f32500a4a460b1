// The table of layout presets stored in the `Layouts` section of
// layout_config.ini (lib/config_manager.py, `serialize` and `deserialize`).
// Python's `repr` and `ast.literal_eval` of a preset are parameters: a
// preset type `V`, a printer `repr` and a reader `literal` that fails with
// `None` where `literal_eval` raises.

module LayoutPresets {
  import opened Common
  import opened Text
  import opened Ini

  const SECTION := "Layouts"

  /** A Python dictionary: its items in insertion order. */
  type Dict<K, V> = seq<(K, V)>

  function DictKeys<K, V>(d: Dict<K, V>): (r: seq<K>)
    ensures |r| == |d|
    ensures forall i :: 0 <= i < |d| ==> r[i] == d[i].0
  {
    seq(|d|, i requires 0 <= i < |d| => d[i].0)
  }

  /** Position of key `k`, searching from `i`. */
  function IndexOf<K(==), V>(d: Dict<K, V>, k: K, i: nat): (r: Option<nat>)
    requires i <= |d|
    ensures r.None? <==> forall j :: i <= j < |d| ==> d[j].0 != k
    ensures r.Some? ==> i <= r.value < |d| && d[r.value].0 == k
    decreases |d| - i
  {
    if i == |d| then None
    else if d[i].0 == k then Some(i)
    else IndexOf(d, k, i + 1)
  }

  /** `d[k]`, `None` for a missing key. */
  function Fetch<K(==), V>(d: Dict<K, V>, k: K): (r: Option<V>)
    ensures r.None? <==> k !in DictKeys(d)
  {
    match IndexOf(d, k, 0)
    case Some(i) => Some(d[i].1)
    case None =>
      assert forall j :: 0 <= j < |d| ==> DictKeys(d)[j] != k;
      None
  }

  /** `d[k] = v`: an existing key keeps its place, a new one goes last. */
  function Store<K(==), V>(d: Dict<K, V>, k: K, v: V): (r: Dict<K, V>)
    ensures k in DictKeys(d) ==> |r| == |d| && DictKeys(r) == DictKeys(d)
    ensures k !in DictKeys(d) ==> r == d + [(k, v)]
    ensures NoDup(DictKeys(d)) ==> NoDup(DictKeys(r))
  {
    match IndexOf(d, k, 0)
    case Some(i) =>
      var r := d[i := (k, v)];
      assert DictKeys(r) == DictKeys(d);
      r
    case None =>
      assert forall j :: 0 <= j < |d| ==> DictKeys(d)[j] != k;
      var r := d + [(k, v)];
      assert DictKeys(r) == DictKeys(d) + [k];
      r
  }

  /** After `d[k] = v`, `k` maps to `v` and every other key is unchanged. */
  lemma StoreFetch<K, V>(d: Dict<K, V>, k: K, v: V, k': K)
    requires NoDup(DictKeys(d))
    ensures Fetch(Store(d, k, v), k') == if k' == k then Some(v) else Fetch(d, k')
  {
    var r := Store(d, k, v);
    match IndexOf(d, k, 0)
    case Some(i) =>
      if k' == k {
        assert IndexOf(r, k, 0) == Some(i) by {
          var f := IndexOf(r, k, 0).value;
          assert DictKeys(d)[f] == DictKeys(d)[i];
        }
      } else {
        match IndexOf(d, k', 0)
        case Some(f) =>
          assert IndexOf(r, k', 0) == Some(f) by {
            var g := IndexOf(r, k', 0).value;
            assert DictKeys(d)[g] == DictKeys(d)[f];
          }
        case None =>
          assert IndexOf(r, k', 0).None?;
      }
    case None =>
      assert k !in DictKeys(d) by {
        forall j | 0 <= j < |d| ensures DictKeys(d)[j] != k { }
      }
      assert r == d + [(k, v)];
      assert forall j :: 0 <= j < |d| ==> r[j] == d[j];
      if k' == k {
        assert r[|d|].0 == k;
        var f := IndexOf(r, k, 0).value;
        assert f == |d|;
      } else {
        assert IndexOf(r, k', 0) == IndexOf(d, k', 0) by {
          match IndexOf(d, k', 0)
          case Some(f) =>
            assert r[f].0 == k';
            var g := IndexOf(r, k', 0).value;
            assert g < |d|;
            assert DictKeys(d)[g] == DictKeys(d)[f];
          case None =>
            assert forall j :: 0 <= j < |r| ==> r[j].0 != k';
        }
      }
  }

  /** `config[SECTION][key]`: the section's own value, else the default
      one; defined for every key the section proxy iterates over. */
  function ProxyGet(c: Config, i: nat, k: string): (r: string)
    requires i < |c.sections| && Valid(c)
    requires k in Keys(Update(c.sections[i].items, c.defaults))
    ensures Get(ItemsOf(c, i), k) == Some(r)
  {
    UpdateGet(c.sections[i].items, c.defaults, k);
    UpdateGet(c.defaults, c.sections[i].items, k);
    Get(ItemsOf(c, i), k).value
  }

  /** The `(key, value)` pairs `for key in config[SECTION]` visits: the
      section's own options, then the defaults it does not override. */
  function ProxyItems(c: Config, i: nat): (r: Items)
    requires i < |c.sections| && Valid(c)
    ensures Keys(r) == Keys(Update(c.sections[i].items, c.defaults))
    ensures forall j :: 0 <= j < |r| ==> Get(ItemsOf(c, i), r[j].0) == Some(r[j].1)
  {
    var ks := Keys(Update(c.sections[i].items, c.defaults));
    seq(|ks|, j requires 0 <= j < |ks| => (ks[j], ProxyGet(c, i, ks[j])))
  }

  /** The loop of `deserialize` over the visited pairs: an entry whose key
      is an integer and whose value is a literal is stored under that
      integer, any other entry is skipped. */
  function Decode<V>(es: Items, literal: string -> Option<V>): (r: Dict<int, V>)
    ensures NoDup(DictKeys(r))
    decreases |es|
  {
    if es == [] then []
    else
      var d := Decode(es[..|es| - 1], literal);
      var (key, raw) := es[|es| - 1];
      match (ParseInt(key), literal(raw))
      case (Some(k), Some(v)) => Store(d, k, v)
      case _ => d
  }

  /** One more iteration of the loop of `deserialize`. */
  lemma DecodeStep<V>(es: Items, j: nat, literal: string -> Option<V>)
    requires j < |es|
    ensures Decode(es[..j + 1], literal) ==
      match (ParseInt(es[j].0), literal(es[j].1))
      case (Some(k), Some(v)) => Store(Decode(es[..j], literal), k, v)
      case _ => Decode(es[..j], literal)
  {
    assert es[..j + 1][..j] == es[..j];
  }

  /** Whether entry `j` is kept under the integer `k`. */
  predicate Accepted<V>(es: Items, j: nat, k: int, literal: string -> Option<V>)
    requires j < |es|
  {
    ParseInt(es[j].0) == Some(k) && literal(es[j].1).Some?
  }

  /** Reference: the value of the last kept entry for `k`. */
  function Latest<V>(es: Items, k: int, literal: string -> Option<V>): (r: Option<V>)
    decreases |es|
  {
    if es == [] then None
    else if Accepted(es, |es| - 1, k, literal) then literal(es[|es| - 1].1)
    else Latest(es[..|es| - 1], k, literal)
  }

  /** There is a latest value for `k` exactly when some entry is kept under
      `k`; it is that entry's value, and no later entry is kept under `k`. */
  lemma {:induction false} LatestSpec<V>(es: Items, k: int, literal: string -> Option<V>)
    ensures Latest(es, k, literal).Some? <==> exists j :: 0 <= j < |es| && Accepted(es, j, k, literal)
    ensures Latest(es, k, literal).Some? ==> exists j ::
      && 0 <= j < |es| && Accepted(es, j, k, literal)
      && Latest(es, k, literal) == literal(es[j].1)
      && forall l :: j < l < |es| ==> !Accepted(es, l, k, literal)
    decreases |es|
  {
    if es != [] {
      var n := |es| - 1;
      var init := es[..n];
      LatestSpec(init, k, literal);
      forall j | 0 <= j < n
        ensures Accepted(es, j, k, literal) == Accepted(init, j, k, literal)
      {
        assert es[j] == init[j];
      }
      if !Accepted(es, n, k, literal) && Latest(init, k, literal).Some? {
        var j :| 0 <= j < n && Accepted(init, j, k, literal)
          && Latest(init, k, literal) == literal(init[j].1)
          && forall l :: j < l < n ==> !Accepted(init, l, k, literal);
        assert es[j] == init[j];
        assert Accepted(es, j, k, literal);
      }
    }
  }

  /** The decoded table holds, for every integer, the latest kept value. */
  lemma {:induction false} DecodeLatest<V>(es: Items, k: int, literal: string -> Option<V>)
    ensures Fetch(Decode(es, literal), k) == Latest(es, k, literal)
    decreases |es|
  {
    if es != [] {
      var n := |es| - 1;
      var d := Decode(es[..n], literal);
      DecodeLatest(es[..n], k, literal);
      match (ParseInt(es[n].0), literal(es[n].1))
      case (Some(k0), Some(v)) => StoreFetch(d, k0, v, k);
      case _ =>
    }
  }

  /** `deserialize`, as a function of the parser: the default presets
      when there is no `Layouts` section, the decoded section otherwise. */
  function LayoutsFrom<V>(c: Config, literal: string -> Option<V>, defaults: Dict<int, V>): (r: Dict<int, V>)
    requires Valid(c)
    ensures SECTION !in Names(c) ==> r == defaults
  {
    match Find(c, SECTION)
    case None => defaults
    case Some(i) => Decode(ProxyItems(c, i), literal)
  }

  /** `ConfigManager.deserialize`. */
  method Deserialize<V>(c: Config, literal: string -> Option<V>, defaults: Dict<int, V>)
    returns (layouts: Dict<int, V>)
    requires Valid(c)
    ensures layouts == LayoutsFrom(c, literal, defaults)
  {
    var found := Find(c, SECTION);
    if found.None? {
      return defaults;
    }
    var i := found.value;
    var keys := Keys(Update(c.sections[i].items, c.defaults));
    ghost var es := ProxyItems(c, i);
    layouts := [];
    assert |es| == |keys|;
    for j := 0 to |keys|
      invariant layouts == Decode(es[..j], literal)
    {
      var key := keys[j];
      var raw := ProxyGet(c, i, key);
      assert es[j] == (key, raw);
      DecodeStep(es, j, literal);
      var k := ParseInt(key);
      if k.Some? {
        var v := literal(raw);
        if v.Some? {
          layouts := Store(layouts, k.value, v.value);
        }
      }
    }
    assert es[..|keys|] == es;
  }

  /** The options `serialize` writes: `str(key)` and `repr(entries)`. */
  function SerialItems<V>(ls: Dict<int, V>, repr: V -> string): (r: Items)
    ensures |r| == |ls|
    ensures forall j :: 0 <= j < |ls| ==> r[j] == (IntToString(ls[j].0), repr(ls[j].1))
  {
    seq(|ls|, j requires 0 <= j < |ls| => (IntToString(ls[j].0), repr(ls[j].1)))
  }

  /** `ConfigManager.serialize`: a fresh parser, an empty `Layouts`
      section, then one `set` per preset. */
  function Serialize<V>(ls: Dict<int, V>, repr: V -> string): (r: Config)
    ensures Valid(r) && Names(r) == [SECTION]
  {
    var c := Assign(Empty, SECTION, []);
    assert Names(Empty) == [];
    SetAll(c, SECTION, SerialItems(ls, repr))
  }

  /** Distinct integers print to distinct option names. */
  lemma SerialKeysUnique<V>(ls: Dict<int, V>, repr: V -> string)
    requires NoDup(DictKeys(ls))
    ensures UniqueKeys(SerialItems(ls, repr))
  {
    var s := SerialItems(ls, repr);
    forall i, j | 0 <= i < j < |s| ensures s[i].0 != s[j].0 {
      IntRoundTrip(ls[i].0);
      IntRoundTrip(ls[j].0);
      assert DictKeys(ls)[i] != DictKeys(ls)[j];
    }
  }

  /** The serialized parser is one `Layouts` section holding exactly the
      printed presets, in the table's order. */
  lemma SerializeShape<V>(ls: Dict<int, V>, repr: V -> string)
    requires NoDup(DictKeys(ls))
    ensures Serialize(ls, repr) == Config([], [Section(SECTION, SerialItems(ls, repr))])
  {
    var c := Assign(Empty, SECTION, []);
    var items := SerialItems(ls, repr);
    assert Names(Empty) == [];
    AssignSection(Empty, SECTION, []);
    assert c == Config([], [Section(SECTION, [])]);
    SetAllSection(c, SECTION, items, 0);
    SerialKeysUnique(ls, repr);
    UpdateFresh([], items);
    var r := Serialize(ls, repr);
    assert r == SetAll(c, SECTION, items);
    assert r.defaults == [];
    assert |r.sections| == 1;
    assert r.sections[0] == Section(SECTION, items);
    assert r.sections == [r.sections[0]];
  }

  /** Decoding the printed presets entry by entry rebuilds the table. */
  lemma {:induction false} DecodeSerial<V>(ls: Dict<int, V>, repr: V -> string, literal: string -> Option<V>, n: nat)
    requires n <= |ls| && NoDup(DictKeys(ls))
    requires forall j :: 0 <= j < |ls| ==> literal(repr(ls[j].1)) == Some(ls[j].1)
    ensures Decode(SerialItems(ls, repr)[..n], literal) == ls[..n]
  {
    if n > 0 {
      var s := SerialItems(ls, repr);
      var (k, v) := ls[n - 1];
      DecodeSerial(ls, repr, literal, n - 1);
      DecodeStep(s, n - 1, literal);
      IntRoundTrip(k);
      assert ParseInt(s[n - 1].0) == Some(k) && literal(s[n - 1].1) == Some(v);
      var init := ls[..n - 1];
      assert k !in DictKeys(init) by {
        forall j | 0 <= j < |init| ensures DictKeys(init)[j] != k {
          assert DictKeys(ls)[j] != DictKeys(ls)[n - 1];
        }
      }
      assert init + [(k, v)] == ls[..n];
    }
  }

  /** Round trip: reading back a serialized table gives the table, when
      `literal` reads back what `repr` prints. */
  lemma SerializeRoundTrip<V>(ls: Dict<int, V>, repr: V -> string, literal: string -> Option<V>, defaults: Dict<int, V>)
    requires NoDup(DictKeys(ls))
    requires forall j :: 0 <= j < |ls| ==> literal(repr(ls[j].1)) == Some(ls[j].1)
    ensures LayoutsFrom(Serialize(ls, repr), literal, defaults) == ls
  {
    var s := SerialItems(ls, repr);
    var c := Serialize(ls, repr);
    SerializeShape(ls, repr);
    SerialKeysUnique(ls, repr);
    assert Find(c, SECTION) == Some(0);
    assert Update(s, []) == s;
    assert ItemsOf(c, 0) == s by { UpdateFresh([], s); }
    var es := ProxyItems(c, 0);
    assert es == s by {
      forall j | 0 <= j < |s| ensures es[j] == s[j] {
        assert Keys(es)[j] == Keys(s)[j];
        GetAt(s, j);
      }
    }
    DecodeSerial(ls, repr, literal, |ls|);
    assert s[..|ls|] == s && ls[..|ls|] == ls;
  }
}
