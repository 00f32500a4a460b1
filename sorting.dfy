/** The two sorts the application performs: `list.sort()` on file names
    (Python's code-point order on strings) and the stable `list.sort(key=...)`
    on integer keys used to lay windows out from left to right. */
module Sorting {

  /** Python's `a <= b` on strings: lexicographic by code point. */
  predicate LexLe(a: string, b: string)
  {
    a == [] || (b != [] && (a[0] < b[0] || (a[0] == b[0] && LexLe(a[1..], b[1..]))))
  }

  lemma {:induction false} LexLeTotal(a: string, b: string)
    ensures LexLe(a, b) || LexLe(b, a)
  {
    if a != [] && b != [] && a[0] == b[0] {
      LexLeTotal(a[1..], b[1..]);
    }
  }

  lemma {:induction false} LexLeRefl(a: string)
    ensures LexLe(a, a)
  {
    if a != [] { LexLeRefl(a[1..]); }
  }

  lemma {:induction false} LexLeTrans(a: string, b: string, c: string)
    requires LexLe(a, b) && LexLe(b, c)
    ensures LexLe(a, c)
  {
    if a != [] && b != [] && c != [] && a[0] == b[0] == c[0] {
      LexLeTrans(a[1..], b[1..], c[1..]);
    }
  }

  lemma {:induction false} LexLeAntisym(a: string, b: string)
    requires LexLe(a, b) && LexLe(b, a)
    ensures a == b
  {
    if a != [] && b != [] {
      LexLeAntisym(a[1..], b[1..]);
      assert a == [a[0]] + a[1..];
      assert b == [b[0]] + b[1..];
    }
  }

  predicate SortedStrings(s: seq<string>)
  {
    forall i, j :: 0 <= i < j < |s| ==> LexLe(s[i], s[j])
  }

  /** Insert `x` into a sorted list before the first element above it. */
  function InsertString(x: string, s: seq<string>): (r: seq<string>)
    requires SortedStrings(s)
    ensures SortedStrings(r)
    ensures multiset(r) == multiset(s) + multiset{x}
  {
    if s == [] then [x]
    else if LexLe(x, s[0]) then
      HeadBelowAll(x, s);
      [x] + s
    else
      LexLeTotal(x, s[0]);
      var rest := InsertString(x, s[1..]);
      HeadBelowInserted(s, x, rest);
      [s[0]] + rest
  }

  /** An element at or below the head of a sorted list may go in front of it. */
  lemma HeadBelowAll(x: string, s: seq<string>)
    requires SortedStrings(s) && s != [] && LexLe(x, s[0])
    ensures SortedStrings([x] + s)
  {
    forall j | 0 <= j < |s| ensures LexLe(x, s[j]) {
      if j > 0 { LexLeTrans(x, s[0], s[j]); }
    }
  }

  /** The head of a sorted list stays in front of the rest with an element
      above it inserted. */
  lemma HeadBelowInserted(s: seq<string>, x: string, rest: seq<string>)
    requires SortedStrings(s) && s != [] && LexLe(s[0], x)
    requires SortedStrings(rest) && multiset(rest) == multiset(s[1..]) + multiset{x}
    ensures SortedStrings([s[0]] + rest)
    ensures multiset([s[0]] + rest) == multiset(s) + multiset{x}
  {
    forall j | 0 <= j < |rest| ensures LexLe(s[0], rest[j]) {
      assert rest[j] in multiset(rest);
      if rest[j] != x {
        assert rest[j] in multiset(s[1..]);
        var k :| 0 <= k < |s[1..]| && s[1..][k] == rest[j];
        assert s[k + 1] == rest[j];
      }
    }
    assert s == [s[0]] + s[1..];
  }

  /** `sorted(s)` for a list of strings. */
  function SortStrings(s: seq<string>): (r: seq<string>)
    ensures SortedStrings(r)
    ensures multiset(r) == multiset(s)
  {
    if s == [] then []
    else
      assert s == s[..|s| - 1] + [s[|s| - 1]];
      InsertString(s[|s| - 1], SortStrings(s[..|s| - 1]))
  }

  /** Two sorted lists with the same elements are the same list, so
      `SortStrings` is the one order Python's sort produces. */
  lemma {:induction false} SortedUnique(a: seq<string>, b: seq<string>)
    requires SortedStrings(a) && SortedStrings(b) && multiset(a) == multiset(b)
    ensures a == b
    decreases |a|
  {
    if a != [] {
      SortedHeads(a, b);
      MultisetTail(a);
      MultisetTail(b);
      SortedUnique(a[1..], b[1..]);
      assert a == [a[0]] + a[1..] && b == [b[0]] + b[1..];
    }
  }

  /** Two sorted lists with the same elements start with the same element. */
  lemma SortedHeads(a: seq<string>, b: seq<string>)
    requires SortedStrings(a) && SortedStrings(b) && multiset(a) == multiset(b) && a != []
    ensures |b| == |a| && a[0] == b[0]
  {
    assert |b| == |a| by { assert |multiset(a)| == |multiset(b)|; }
    assert a[0] in multiset(b);
    assert b[0] in multiset(a);
    var i :| 0 <= i < |b| && b[i] == a[0];
    var j :| 0 <= j < |a| && a[j] == b[0];
    assert LexLe(b[0], a[0]) by { if i > 0 { assert LexLe(b[0], b[i]); } else { LexLeRefl(a[0]); } }
    assert LexLe(a[0], b[0]) by { if j > 0 { assert LexLe(a[0], a[j]); } else { LexLeRefl(a[0]); } }
    LexLeAntisym(a[0], b[0]);
  }

  lemma MultisetTail(s: seq<string>)
    requires s != []
    ensures multiset(s[1..]) == multiset(s) - multiset{s[0]}
  {
    assert s == [s[0]] + s[1..];
    assert multiset(s) == multiset{s[0]} + multiset(s[1..]);
  }

  // ----- stable sort on an integer key -----

  predicate SortedByKey<T>(s: seq<T>, key: T -> int)
  {
    forall i, j :: 0 <= i < j < |s| ==> key(s[i]) <= key(s[j])
  }

  /** The elements of `s` whose key is `k`, in their order in `s`. */
  function WithKey<T>(s: seq<T>, key: T -> int, k: int): seq<T>
  {
    if s == [] then []
    else (if key(s[0]) == k then [s[0]] else []) + WithKey(s[1..], key, k)
  }

  lemma {:induction false} WithKeyAppend<T>(a: seq<T>, b: seq<T>, key: T -> int, k: int)
    ensures WithKey(a + b, key, k) == WithKey(a, key, k) + WithKey(b, key, k)
  {
    if a != [] {
      assert (a + b)[1..] == a[1..] + b;
      WithKeyAppend(a[1..], b, key, k);
    } else {
      assert a + b == b;
    }
  }

  lemma {:induction false} WithKeyNone<T>(s: seq<T>, key: T -> int, k: int)
    requires forall i :: 0 <= i < |s| ==> key(s[i]) != k
    ensures WithKey(s, key, k) == []
  {
    if s != [] { WithKeyNone(s[1..], key, k); }
  }

  /** Insert `x` after every element whose key is not above its own. */
  function InsertByKey<T>(x: T, s: seq<T>, key: T -> int): (r: seq<T>)
    requires SortedByKey(s, key)
    ensures |r| == |s| + 1
    ensures SortedByKey(r, key)
    ensures forall i :: 0 <= i < |r| ==> r[i] == x || r[i] in s
  {
    if s == [] then [x]
    else if key(x) < key(s[0]) then [x] + s
    else
      var rest := InsertByKey(x, s[1..], key);
      assert forall i :: 0 <= i < |rest| ==> key(s[0]) <= key(rest[i]) by {
        forall i | 0 <= i < |rest| ensures key(s[0]) <= key(rest[i]) {
          if rest[i] != x {
            var j :| 0 <= j < |s[1..]| && s[1..][j] == rest[i];
            assert s[j + 1] == rest[i];
          }
        }
      }
      [s[0]] + rest
  }

  lemma {:induction false} InsertByKeyStable<T>(x: T, s: seq<T>, key: T -> int, k: int)
    requires SortedByKey(s, key)
    ensures WithKey(InsertByKey(x, s, key), key, k)
         == WithKey(s, key, k) + (if key(x) == k then [x] else [])
  {
    var tail: seq<T> := if key(x) == k then [x] else [];
    var r := InsertByKey(x, s, key);
    if s == [] {
      assert r == [x];
      assert WithKey(r, key, k) == tail + WithKey(r[1..], key, k);
    } else if key(x) < key(s[0]) {
      assert r == [x] + s && r[1..] == s;
      assert WithKey(r, key, k) == tail + WithKey(s, key, k);
      if key(x) == k {
        WithKeyNone(s, key, k);
      }
    } else {
      var rest := InsertByKey(x, s[1..], key);
      assert r == [s[0]] + rest && r[1..] == rest;
      var head: seq<T> := if key(s[0]) == k then [s[0]] else [];
      assert WithKey(r, key, k) == head + WithKey(rest, key, k);
      InsertByKeyStable(x, s[1..], key, k);
      assert WithKey(s, key, k) == head + WithKey(s[1..], key, k);
    }
  }

  /** `sorted(s, key=key)`: Python's sort is stable, so elements with equal
      keys keep their input order. */
  function SortByKey<T>(s: seq<T>, key: T -> int): (r: seq<T>)
    ensures |r| == |s|
    ensures SortedByKey(r, key)
    ensures forall i :: 0 <= i < |r| ==> r[i] in s
  {
    if s == [] then []
    else
      var init := SortByKey(s[..|s| - 1], key);
      var r := InsertByKey(s[|s| - 1], init, key);
      assert forall i :: 0 <= i < |r| ==> r[i] in s by {
        forall i | 0 <= i < |r| ensures r[i] in s {
          if r[i] != s[|s| - 1] {
            var j :| 0 <= j < |init| && init[j] == r[i];
            assert init[j] in s[..|s| - 1];
          }
        }
      }
      r
  }

  /** Stability: for every key, the elements carrying it appear in the
      output in the same order as in the input. */
  lemma {:induction false} SortByKeyStable<T>(s: seq<T>, key: T -> int, k: int)
    ensures WithKey(SortByKey(s, key), key, k) == WithKey(s, key, k)
  {
    if s != [] {
      var init := s[..|s| - 1];
      var x := s[|s| - 1];
      SortByKeyStable(init, key, k);
      InsertByKeyStable(x, SortByKey(init, key), key, k);
      assert s == init + [x];
      WithKeyAppend(init, [x], key, k);
      assert WithKey([x], key, k) == (if key(x) == k then [x] else []) + WithKey([x][1..], key, k);
    }
  }
}
