/** Small value types shared by every module of the model: optional values,
    results carrying the Python exception that a statement would raise, and
    the handful of Python values that flow through the settings dictionaries. */
module Common {

  datatype Option<+T> = None | Some(value: T)

  /** The Python exception kinds the modelled code raises and catches
      (`ConfigError` stands for `configparser.Error` and its subclasses). */
  datatype PyError = ValueError | TypeError | AttributeError | IndexError | OSError | ConfigError

  datatype Result<+T> = Ok(value: T) | Err(error: PyError)

  /** A value stored in one of the application's settings dictionaries:
      `None`, a `bool`, an `int`, a `str`, or a 2-tuple of `int`s. */
  datatype PyVal = PNone | PBool(b: bool) | PInt(i: int) | PStr(s: string) | PPair(x: int, y: int)

  /** Python truthiness of a `PyVal`. */
  predicate Truthy(v: PyVal)
  {
    match v
    case PNone => false
    case PBool(b) => b
    case PInt(i) => i != 0
    case PStr(s) => s != ""
    case PPair(_, _) => true
  }

  /** No element occurs twice. */
  predicate NoDup<T(==)>(s: seq<T>)
  {
    forall i, j :: 0 <= i < j < |s| ==> s[i] != s[j]
  }

  lemma Singleton<T>(s: seq<T>)
    requires |s| == 1
    ensures s == [s[0]]
  {
  }

  /** Moving the head of `s` onto the end of `a`. */
  lemma AppendHead<T>(a: seq<T>, s: seq<T>)
    requires s != []
    ensures a + [s[0]] + s[1..] == a + s
  {
    assert s == [s[0]] + s[1..];
  }

  lemma NoDupCons<T>(x: T, s: seq<T>)
    ensures NoDup([x] + s) <==> x !in s && NoDup(s)
  {
    var t := [x] + s;
    if x !in s && NoDup(s) {
      forall i, j | 0 <= i < j < |t| ensures t[i] != t[j] {
        if i > 0 { assert t[i] == s[i - 1] && t[j] == s[j - 1]; } else { assert t[j] == s[j - 1]; }
      }
    }
    if NoDup(t) {
      forall i, j | 0 <= i < j < |s| ensures s[i] != s[j] { assert t[i + 1] != t[j + 1]; }
      forall i | 0 <= i < |s| ensures s[i] != x { assert t[0] != t[i + 1]; }
    }
  }

  /** Python's `list.remove(x)`: drop the first occurrence of `x`. */
  function RemoveFirst<T(==)>(s: seq<T>, x: T): (r: seq<T>)
    ensures x !in s ==> r == s
    ensures x in s ==> |r| == |s| - 1
    ensures forall y :: y in r ==> y in s
    ensures forall y :: y in s && y != x ==> y in r
    ensures NoDup(s) ==> NoDup(r) && x !in r
  {
    if s == [] then []
    else if s[0] == x then s[1..]
    else
      var rest := RemoveFirst(s[1..], x);
      assert NoDup(s) ==> NoDup(s[1..]) && s[0] !in s[1..] && s[0] !in rest;
      [s[0]] + rest
  }

  /** The values of the `Some` entries, in order. */
  function Somes<T>(s: seq<Option<T>>): (r: seq<T>)
    ensures |r| <= |s|
  {
    if s == [] then []
    else Somes(s[..|s| - 1]) + (if s[|s| - 1].Some? then [s[|s| - 1].value] else [])
  }

  /** The positions of the `Some` entries, in increasing order. */
  function SomeIndices<T>(s: seq<Option<T>>): (idx: seq<nat>)
    ensures forall j :: 0 <= j < |idx| ==> idx[j] < |s| && s[idx[j]].Some?
    ensures forall j, k :: 0 <= j < k < |idx| ==> idx[j] < idx[k]
    ensures forall i :: 0 <= i < |s| && s[i].Some? ==> i in idx
  {
    if s == [] then []
    else
      var n := |s| - 1;
      var idx := SomeIndices(s[..n]);
      assert forall j :: 0 <= j < |idx| ==> s[idx[j]] == s[..n][idx[j]];
      if s[n].Some? then idx + [n] else idx
  }

  /** Entry `j` of `Somes(s)` is the value at the `j`-th `Some` position. */
  lemma {:induction false} SomesAt<T>(s: seq<Option<T>>)
    ensures |Somes(s)| == |SomeIndices(s)|
    ensures forall j :: 0 <= j < |Somes(s)| ==> s[SomeIndices(s)[j]] == Some(Somes(s)[j])
  {
    if s != [] {
      var n := |s| - 1;
      SomesAt(s[..n]);
      SomesSnoc(s);
      SomeIndicesSnoc(s);
      SomesAtStep(s, Somes(s[..n]), SomeIndices(s[..n]));
    }
  }

  lemma SomesSnoc<T>(s: seq<Option<T>>)
    requires s != []
    ensures Somes(s) == Somes(s[..|s| - 1]) + (if s[|s| - 1].Some? then [s[|s| - 1].value] else [])
  {
  }

  lemma SomeIndicesSnoc<T>(s: seq<Option<T>>)
    requires s != []
    ensures SomeIndices(s) == SomeIndices(s[..|s| - 1]) + (if s[|s| - 1].Some? then [|s| - 1] else [])
  {
  }

  /** The inductive step of `SomesAt`, for the values and positions of the
      prefix. */
  lemma SomesAtStep<T>(s: seq<Option<T>>, pre: seq<T>, idx: seq<nat>)
    requires s != [] && |pre| == |idx|
    requires forall j :: 0 <= j < |idx| ==> idx[j] < |s| - 1 && s[..|s| - 1][idx[j]] == Some(pre[j])
    ensures var n := |s| - 1;
      var r := pre + (if s[n].Some? then [s[n].value] else []);
      var ix := idx + (if s[n].Some? then [n] else []);
      |r| == |ix| && forall j :: 0 <= j < |r| ==> s[ix[j]] == Some(r[j])
  {
    var n := |s| - 1;
    forall j | 0 <= j < |idx| ensures s[idx[j]] == Some(pre[j]) {
      assert s[..n][idx[j]] == s[idx[j]];
    }
  }

  /** Every value kept by `Somes` comes from some entry. */
  lemma SomesFrom<T>(s: seq<Option<T>>, j: nat)
    requires j < |Somes(s)|
    ensures exists i :: 0 <= i < |s| && s[i] == Some(Somes(s)[j])
  {
    SomesAt(s);
    var i := SomeIndices(s)[j];
    assert s[i] == Some(Somes(s)[j]);
  }

  lemma {:induction false} SomesOfAll<T>(s: seq<T>, opts: seq<Option<T>>)
    requires |opts| == |s| && forall i :: 0 <= i < |s| ==> opts[i] == Some(s[i])
    ensures Somes(opts) == s
  {
    if s != [] {
      var n := |s| - 1;
      SomesOfAll(s[..n], opts[..n]);
      assert s == s[..n] + [s[n]];
    }
  }

  /** A loop that appends the value of every `Ok(Some(x))`, skips
      `Ok(None)` and stops at the first `Err`. */
  function CollectSomes<T>(rs: seq<Result<Option<T>>>): (r: Result<seq<T>>)
  {
    if rs == [] then Ok([])
    else match CollectSomes(rs[..|rs| - 1])
      case Err(e) => Err(e)
      case Ok(xs) =>
        match rs[|rs| - 1]
        case Err(e) => Err(e)
        case Ok(None) => Ok(xs)
        case Ok(Some(x)) => Ok(xs + [x])
  }

  /** The values of the outcomes, `None` for an exception. */
  function OkValues<T>(rs: seq<Result<Option<T>>>): (r: seq<Option<T>>)
    ensures |r| == |rs|
    ensures forall i :: 0 <= i < |rs| ==> r[i] == if rs[i].Ok? then rs[i].value else None
  {
    seq(|rs|, i requires 0 <= i < |rs| => if rs[i].Ok? then rs[i].value else None)
  }

  /** The loop succeeds exactly when no outcome is an exception, and then
      collects the `Some` values in order. */
  lemma {:induction false} CollectSomesSpec<T>(rs: seq<Result<Option<T>>>)
    ensures CollectSomes(rs).Ok? <==> forall i :: 0 <= i < |rs| ==> rs[i].Ok?
    ensures CollectSomes(rs).Ok? ==> CollectSomes(rs).value == Somes(OkValues(rs))
  {
    if rs != [] {
      var n := |rs| - 1;
      CollectSomesSpec(rs[..n]);
      assert OkValues(rs)[..n] == OkValues(rs[..n]);
    }
  }

  /** Once an exception is raised, the loop's outcome is that exception. */
  lemma {:induction false} CollectSomesStopsAt<T>(rs: seq<Result<Option<T>>>, i: nat, k: nat)
    requires i < k <= |rs| && CollectSomes(rs[..i]).Ok? && rs[i].Err?
    ensures CollectSomes(rs[..k]) == Err(rs[i].error)
    decreases k
  {
    assert rs[..k][..k - 1] == rs[..k - 1];
    if k > i + 1 {
      CollectSomesStopsAt(rs, i, k - 1);
    }
  }

  /** One more step of the loop. */
  lemma CollectSomesStep<T>(rs: seq<Result<Option<T>>>, i: nat, xs: seq<T>)
    requires i < |rs| && CollectSomes(rs[..i]) == Ok(xs)
    ensures rs[i].Ok? && rs[i].value.None? ==> CollectSomes(rs[..i + 1]) == Ok(xs)
    ensures rs[i].Ok? && rs[i].value.Some? ==> CollectSomes(rs[..i + 1]) == Ok(xs + [rs[i].value.value])
  {
    assert rs[..i + 1][..i] == rs[..i];
  }

  lemma CollectSomesSingle<T>(x: T)
    ensures CollectSomes([Ok(Some(x))]) == Ok([x])
  {
    assert [Ok(Some(x))][..0] == [];
    assert CollectSomes([Ok(Some(x))][..0]) == Ok([]);
    assert [] + [x] == [x];
  }

  /** When every entry is a `Some`, `Somes` keeps them all. */
  lemma {:induction false} SomesAllSome<T>(opts: seq<Option<T>>)
    requires forall i :: 0 <= i < |opts| ==> opts[i].Some?
    ensures |Somes(opts)| == |opts|
    ensures forall i :: 0 <= i < |opts| ==> Somes(opts)[i] == opts[i].value
  {
    if opts != [] {
      SomesAllSome(opts[..|opts| - 1]);
    }
  }

  /** The first position, from `i` on, that holds `true`. */
  function FirstTrue(bs: seq<bool>, i: nat): (r: Option<nat>)
    requires i <= |bs|
    ensures r.None? <==> forall k :: i <= k < |bs| ==> !bs[k]
    ensures r.Some? ==> i <= r.value < |bs| && bs[r.value]
    ensures r.Some? ==> forall k :: i <= k < r.value ==> !bs[k]
    decreases |bs| - i
  {
    if i == |bs| then None
    else if bs[i] then Some(i)
    else FirstTrue(bs, i + 1)
  }
}
