/** `clean_window_title`: the normal form under which window titles, section
    names and config names are compared everywhere in the application.
    Each regular expression of the Python code is written out by hand. */
module TitleCleaner {
  import opened Common
  import opened Text

  predicate IsPrintable(c: char) { ' ' <= c <= '~' }

  predicate Printable(s: string)
  {
    forall i :: 0 <= i < |s| ==> IsPrintable(s[i])
  }

  predicate NoUpper(s: string)
  {
    forall i :: 0 <= i < |s| ==> !IsUpperAscii(s[i])
  }

  /** Whitespace at index `i` and at the next index. */
  predicate DoubleSpaceAt(s: string, i: int)
    requires 0 <= i < |s| - 1
  {
    IsSpace(s[i]) && IsSpace(s[i + 1])
  }

  /** Every whitespace character is a plain space and no two are adjacent. */
  predicate SingleSpaced(s: string)
  {
    && (forall i :: 0 <= i < |s| && IsSpace(s[i]) ==> s[i] == ' ')
    && (forall i :: 0 <= i < |s| - 1 ==> !DoubleSpaceAt(s, i))
  }

  predicate AllSpace(s: string)
  {
    forall i :: 0 <= i < |s| ==> IsSpace(s[i])
  }

  // ----- basic cleaning -----

  /** `re.sub(r'[^\x20-\x7E]', '', s)`. */
  function KeepPrintable(s: string): (r: string)
    ensures |r| <= |s|
    ensures Printable(r)
    ensures Printable(s) ==> r == s
  {
    if s == [] then []
    else (if IsPrintable(s[0]) then [s[0]] else []) + KeepPrintable(s[1..])
  }

  /** `re.sub(r'\s+', ' ', s)`: every maximal whitespace run becomes one space. */
  function CollapseWhitespace(s: string): (r: string)
    ensures |r| <= |s|
    ensures s == [] <==> r == []
    ensures s != [] ==> (IsSpace(r[0]) <==> IsSpace(s[0]))
    ensures SingleSpaced(r)
    ensures Printable(s) ==> Printable(r)
    decreases |s|
  {
    if s == [] then []
    else if IsSpace(s[0]) then
      var rest := LStrip(s[1..]);
      assert rest == s[|s| - |rest|..];
      PrintableSuffix(s, |s| - |rest|);
      var c := CollapseWhitespace(rest);
      ConsSingleSpaced(' ', c);
      PrintableCons(' ', c);
      " " + c
    else
      var c := CollapseWhitespace(s[1..]);
      PrintableSuffix(s, 1);
      ConsSingleSpaced(s[0], c);
      PrintableCons(s[0], c);
      [s[0]] + c
  }

  lemma PrintableCons(x: char, c: string)
    ensures IsPrintable(x) && Printable(c) ==> Printable([x] + c)
  {
    if IsPrintable(x) && Printable(c) {
      forall i | 0 <= i < |[x] + c| ensures IsPrintable(([x] + c)[i]) {
        if i > 0 { assert ([x] + c)[i] == c[i - 1]; }
      }
    }
  }

  /** A suffix of a printable string is printable. */
  lemma PrintableSuffix(s: string, k: nat)
    requires k <= |s|
    ensures Printable(s) ==> Printable(s[k..])
  {
    if Printable(s) {
      forall i | 0 <= i < |s[k..]| ensures IsPrintable(s[k..][i]) {
        assert s[k..][i] == s[k + i];
      }
    }
  }

  /** Putting a character in front of a single-spaced string keeps it
      single-spaced unless two blanks meet. */
  lemma ConsSingleSpaced(x: char, c: string)
    requires SingleSpaced(c)
    requires IsSpace(x) ==> x == ' ' && (c == [] || !IsSpace(c[0]))
    ensures SingleSpaced([x] + c)
  {
    var r := [x] + c;
    forall i | 0 <= i < |r| - 1 ensures !DoubleSpaceAt(r, i) {
      if i > 0 {
        assert !DoubleSpaceAt(c, i - 1);
        assert r[i] == c[i - 1] && r[i + 1] == c[i];
      }
    }
    forall i | 0 <= i < |r| && IsSpace(r[i]) ensures r[i] == ' ' {
      if i > 0 { assert r[i] == c[i - 1]; }
    }
  }

  /** A single-spaced string is left alone by the collapse. */
  lemma {:induction false} CollapseFixed(s: string)
    requires SingleSpaced(s)
    ensures CollapseWhitespace(s) == s
    decreases |s|
  {
    if s != [] {
      assert SingleSpaced(s[1..]) by {
        forall i | 0 <= i < |s[1..]| - 1 ensures !DoubleSpaceAt(s[1..], i) {
          assert !DoubleSpaceAt(s, i + 1);
          assert s[1..][i] == s[i + 1] && s[1..][i + 1] == s[i + 2];
        }
      }
      if IsSpace(s[0]) && |s| > 1 {
        assert !DoubleSpaceAt(s, 0);
        assert !IsSpace(s[1..][0]);
        assert LStrip(s[1..]) == s[1..];
      }
      CollapseFixed(s[1..]);
    }
  }

  /** A piece cut out of a single-spaced string is single-spaced. */
  lemma SingleSpacedInfix(s: string, a: nat, b: nat)
    requires a <= b <= |s| && SingleSpaced(s)
    ensures SingleSpaced(s[a..b])
  {
    var t := s[a..b];
    forall i | 0 <= i < |t| - 1 ensures !DoubleSpaceAt(t, i) {
      assert !DoubleSpaceAt(s, a + i);
      assert t[i] == s[a + i] && t[i + 1] == s[a + i + 1];
    }
  }

  lemma PrintableInfix(s: string, a: nat, b: nat)
    requires a <= b <= |s| && Printable(s) && NoUpper(s)
    ensures Printable(s[a..b]) && NoUpper(s[a..b])
  {
    assert forall i :: 0 <= i < b - a ==> s[a..b][i] == s[a + i];
  }

  /** Lower-casing keeps the shape of a trimmed, single-spaced ASCII text. */
  lemma LowerKeepsShape(t: string)
    requires Printable(t) && SingleSpaced(t)
    requires t == [] || (!IsSpace(t[0]) && !IsSpace(t[|t| - 1]))
    ensures var r := Lower(t);
      && Printable(r) && NoUpper(r) && SingleSpaced(r)
      && (r == [] || (!IsSpace(r[0]) && !IsSpace(r[|r| - 1])))
  {
    var r := Lower(t);
    forall i | 0 <= i < |r| ensures IsPrintable(r[i]) && !IsUpperAscii(r[i]) && (IsSpace(r[i]) ==> r[i] == ' ') {
      assert r[i] == LowerChar(t[i]);
    }
    forall i | 0 <= i < |r| - 1 ensures !DoubleSpaceAt(r, i) {
      assert !DoubleSpaceAt(t, i);
      assert r[i] == LowerChar(t[i]) && r[i + 1] == LowerChar(t[i + 1]);
    }
  }

  /** Trimming keeps a single-spaced ASCII text single-spaced. */
  lemma StripKeepsShape(c: string)
    requires Printable(c) && SingleSpaced(c)
    ensures Printable(Strip(c)) && SingleSpaced(Strip(c))
  {
    var t := Strip(c);
    var a := StripSlice(c);
    SingleSpacedInfix(c, a, a + |t|);
    PrintableSlice(c, a, a + |t|);
  }

  lemma PrintableSlice(s: string, a: nat, b: nat)
    requires a <= b <= |s| && Printable(s)
    ensures Printable(s[a..b])
  {
    forall i | 0 <= i < b - a ensures IsPrintable(s[a..b][i]) {
      assert s[a..b][i] == s[a + i];
    }
  }

  /** The first three steps: printable ASCII only, whitespace runs collapsed,
      trimmed and lower-cased (`utils.py` lines 8-10). */
  function Basic(s: string): (r: string)
    ensures Printable(r) && NoUpper(r) && SingleSpaced(r)
    ensures r == [] || (!IsSpace(r[0]) && !IsSpace(r[|r| - 1]))
  {
    var c := CollapseWhitespace(KeepPrintable(s));
    StripKeepsShape(c);
    LowerKeepsShape(Strip(c));
    Lower(Strip(c))
  }

  // ----- the `sanitize` steps -----

  /** The character class `[-—–]` of the separator pattern. */
  predicate IsDashClass(c: char)
  {
    c == '-' || c == '\U{2014}' || c == '\U{2013}'
  }

  /** The pattern `' [-—–] '` matches at index `i`. */
  predicate IsSepAt(s: string, i: int)
  {
    0 <= i && i + 3 <= |s| && s[i] == ' ' && IsDashClass(s[i + 1]) && s[i + 2] == ' '
  }

  predicate NoSep(s: string)
  {
    forall i :: 0 <= i < |s| ==> !IsSepAt(s, i)
  }

  lemma SepShift(s: string, i: int)
    requires s != [] && 0 <= i
    ensures IsSepAt(s, i + 1) <==> IsSepAt(s[1..], i)
  {
    if i + 4 <= |s| {
      assert s[1..][i] == s[i + 1] && s[1..][i + 1] == s[i + 2] && s[1..][i + 2] == s[i + 3];
    }
  }

  /** `re.split(r' [-—–] ', s)[-1]` when the pattern matches at all: the text
      after the end of the last match of the left-to-right scan. */
  function SplitTail(s: string): (r: Option<string>)
    ensures r.None? <==> NoSep(s)
    ensures r.Some? ==> && |r.value| + 3 <= |s|
                        && r.value == s[|s| - |r.value|..]
                        && IsSepAt(s, |s| - |r.value| - 3)
                        && NoSep(r.value)
    decreases |s|
  {
    if IsSepAt(s, 0) then
      match SplitTail(s[3..])
      case Some(t) =>
        assert s[3..][|s[3..]| - |t|..] == s[|s| - |t|..];
        assert IsSepAt(s, |s| - |t| - 3) by {
          var j := |s| - |t| - 3;
          assert s[3..][j - 3] == s[j] && s[3..][j - 2] == s[j + 1] && s[3..][j - 1] == s[j + 2];
        }
        Some(t)
      case None =>
        Some(s[3..])
    else if s == [] then None
    else
      var rest := SplitTail(s[1..]);
      assert forall i :: 0 <= i ==> (IsSepAt(s, i + 1) <==> IsSepAt(s[1..], i)) by {
        forall i | 0 <= i { SepShift(s, i); }
      }
      match rest
      case None =>
        assert NoSep(s) by {
          forall i | 0 <= i < |s| ensures !IsSepAt(s, i) {
            if i > 0 { assert !IsSepAt(s[1..], i - 1); }
          }
        }
        None
      case Some(t) =>
        assert s[1..][|s[1..]| - |t|..] == s[|s| - |t|..];
        Some(t)
  }

  /** `re.split(r' [-—–] ', s)[-1]`. */
  function LastSegment(s: string): (r: string)
    ensures |r| <= |s| && r == s[|s| - |r|..]
    ensures NoSep(r)
    ensures r == s || IsSepAt(s, |s| - |r| - 3)
  {
    match SplitTail(s)
    case None => s
    case Some(t) => t
  }

  /** The text matched by `\s*\(.*\)$`: optional whitespace, an opening
      parenthesis, anything, and a closing parenthesis as the last character. */
  predicate ParenTail(t: string)
  {
    exists q :: 0 <= q < |t| - 1 && t[q] == '(' && AllSpace(t[..q]) && t[|t| - 1] == ')'
  }

  lemma NoParenTail(s: string, p: nat)
    requires p <= |s|
    requires s == [] || s[|s| - 1] != ')' || '(' !in s
    ensures !ParenTail(s[p..])
  {
    var t := s[p..];
    forall q | 0 <= q < |t| - 1 ensures !(t[q] == '(' && t[|t| - 1] == ')') {
      assert t[q] == s[p + q] && t[|t| - 1] == s[|s| - 1];
    }
  }

  /** `re.sub(r'\s*\(.*\)$', '', s)`: the leftmost match runs from the
      whitespace before the first `(` to the end of the text. */
  function StripParenGroup(s: string): (r: string)
    ensures |r| <= |s| && r == s[..|r|]
    ensures r == s || r == [] || !IsSpace(r[|r| - 1])
  {
    if s != [] && s[|s| - 1] == ')' then
      match IndexOfChar(s, '(')
      case None => s
      case Some(q) => RStrip(s[..q])
    else s
  }

  /** `StripParenGroup` removes exactly the leftmost match of `\s*\(.*\)$`:
      what it removes matches, and no match starts earlier. */
  lemma ParenGroupRemoved(s: string)
    ensures var r := StripParenGroup(s);
      && (r == s || ParenTail(s[|r|..]))
      && (forall p :: 0 <= p < |r| ==> !ParenTail(s[p..]))
  {
    if s != [] && s[|s| - 1] == ')' && IndexOfChar(s, '(').Some? {
      var q := IndexOfChar(s, '(').value;
      ParenGroupLeftmost(s, q, RStrip(s[..q]));
    } else {
      forall p | 0 <= p < |s| ensures !ParenTail(s[p..]) { NoParenTail(s, p); }
    }
  }

  lemma ParenGroupLeftmost(s: string, q: nat, r: string)
    requires s != [] && s[|s| - 1] == ')'
    requires q < |s| && s[q] == '(' && '(' !in s[..q]
    requires r == RStrip(s[..q])
    ensures r == s[..|r|]
    ensures ParenTail(s[|r|..])
    ensures forall p :: 0 <= p < |r| ==> !ParenTail(s[p..])
  {
    var t := s[|r|..];
    assert t[q - |r|] == '(';
    assert t[..q - |r|] == s[..q][|r|..];
    assert AllSpace(t[..q - |r|]);
    assert forall i :: 0 <= i < q ==> s[i] != '(' by {
      forall i | 0 <= i < q ensures s[i] != '(' { assert s[..q][i] == s[i]; }
    }
    forall p | 0 <= p < |r| ensures !ParenTail(s[p..]) {
      var u := s[p..];
      forall q' | 0 <= q' < |u| - 1 && u[q'] == '(' ensures !AllSpace(u[..q']) {
        assert s[p + q'] == '(';
        assert u[..q'][|r| - 1 - p] == s[|r| - 1];
      }
    }
  }

  /** The text matched by `\s+\d+%$`: whitespace, digits, and a final `%`. */
  predicate PercentTail(t: string)
  {
    exists q :: 0 < q < |t| && PercentAt(t, q)
  }

  /** `t` is `q` blanks, then digits, then `%`. */
  predicate PercentAt(t: string, q: int)
  {
    1 <= q < |t| - 1 && t[|t| - 1] == '%' && AllSpace(t[..q]) && AllDigits(t[q..|t| - 1])
  }

  /** Start of the run of digits that ends just before index `j`. */
  function DigitRunStart(s: string, j: nat): (d: nat)
    requires j <= |s|
    ensures d <= j
    ensures forall i :: d <= i < j ==> IsDigit(s[i])
    ensures d > 0 ==> !IsDigit(s[d - 1])
    decreases j
  {
    if j > 0 && IsDigit(s[j - 1]) then DigitRunStart(s, j - 1) else j
  }

  lemma SpaceNotDigit(c: char)
    ensures IsSpace(c) ==> !IsDigit(c)
  {
  }

  /** A digit run is fixed by its end and the non-digit before it. */
  lemma DigitRunUnique(s: string, j: nat, e: nat)
    requires 0 < e <= j <= |s|
    requires forall i :: e <= i < j ==> IsDigit(s[i])
    requires !IsDigit(s[e - 1])
    ensures DigitRunStart(s, j) == e
  {
  }

  /** A `\s+\d+%$` match at `p` has its digits exactly on the trailing
      digit run, which starts at `d`. */
  lemma PercentTailOnlyAt(s: string, p: nat, d: int)
    requires s != [] && p <= |s|
    requires d == DigitRunStart(s, |s| - 1)
    ensures PercentTail(s[p..]) ==>
      s[|s| - 1] == '%' && p < d < |s| - 1 && AllSpace(s[p..d]) && IsSpace(s[d - 1])
  {
    if PercentTail(s[p..]) {
      var q :| 0 < q < |s[p..]| && PercentAt(s[p..], q);
      PercentMatchAt(s, p, q, d);
    }
  }

  /** The same, for the match whose whitespace is `q` long. */
  lemma PercentMatchAt(s: string, p: nat, q: nat, d: int)
    requires s != [] && p <= |s|
    requires d == DigitRunStart(s, |s| - 1)
    requires PercentAt(s[p..], q)
    ensures s[|s| - 1] == '%' && p < d < |s| - 1 && AllSpace(s[p..d]) && IsSpace(s[d - 1])
  {
    var u := s[p..];
    var e := p + q;
    assert u[|u| - 1] == s[|s| - 1];
    forall i | e <= i < |s| - 1 ensures IsDigit(s[i]) {
      assert u[q..|u| - 1][i - e] == s[i];
    }
    assert u[..q][q - 1] == s[e - 1];
    SpaceNotDigit(s[e - 1]);
    DigitRunUnique(s, |s| - 1, e);
    forall i | 0 <= i < d - p ensures IsSpace(s[p..d][i]) {
      assert s[p..d][i] == u[..q][i];
    }
  }

  /** No match of `\s+\d+%$` starts before a non-blank that precedes the
      trailing digit run. */
  lemma NotPercentTailAt(s: string, p: nat, d: int, k: nat)
    requires s != [] && p <= k < d
    requires d == DigitRunStart(s, |s| - 1)
    requires !IsSpace(s[k])
    ensures !PercentTail(s[p..])
  {
    PercentTailOnlyAt(s, p, d);
    assert s[p..d][k - p] == s[k];
  }

  /** Conversely, whitespace up to the digit run before a final `%` is a match. */
  lemma PercentTailFrom(s: string, p: nat, d: int)
    requires s != [] && p <= |s|
    requires d == DigitRunStart(s, |s| - 1)
    requires s[|s| - 1] == '%' && p < d < |s| - 1 && AllSpace(s[p..d])
    ensures PercentTail(s[p..])
  {
    var u := s[p..];
    var q := d - p;
    assert u[..q] == s[p..d];
    var w := u[q..|u| - 1];
    forall i | 0 <= i < |w| ensures IsDigit(w[i]) {
      assert w[i] == s[d + i];
    }
    assert PercentAt(u, q);
  }

  /** `re.sub(r'\s+\d+%$', '', s)`. */
  function StripPercent(s: string): (r: string)
    ensures |r| <= |s| && r == s[..|r|]
    ensures r == s || r == [] || !IsSpace(r[|r| - 1])
  {
    if s == [] then s
    else
      var d := DigitRunStart(s, |s| - 1);
      if s[|s| - 1] == '%' && d < |s| - 1 && d > 0 && IsSpace(s[d - 1]) then RStrip(s[..d])
      else s
  }

  /** `StripPercent` removes exactly the leftmost match of `\s+\d+%$`. */
  lemma PercentRemoved(s: string)
    ensures var r := StripPercent(s);
      && (r == s || PercentTail(s[|r|..]))
      && (forall p :: 0 <= p < |r| ==> !PercentTail(s[p..]))
  {
    if s != [] {
      var d := DigitRunStart(s, |s| - 1);
      if s[|s| - 1] == '%' && d < |s| - 1 && d > 0 && IsSpace(s[d - 1]) {
        PercentLeftmost(s, d, RStrip(s[..d]));
      } else {
        forall p | 0 <= p < |s| ensures !PercentTail(s[p..]) {
          PercentTailOnlyAt(s, p, d);
        }
      }
    }
  }

  lemma PercentLeftmost(s: string, d: nat, r: string)
    requires s != [] && s[|s| - 1] == '%'
    requires d == DigitRunStart(s, |s| - 1)
    requires 0 < d < |s| - 1 && IsSpace(s[d - 1])
    requires r == RStrip(s[..d])
    ensures r == s[..|r|]
    ensures PercentTail(s[|r|..])
    ensures forall p :: 0 <= p < |r| ==> !PercentTail(s[p..])
  {
    BlankRunBefore(s, d, r);
    PercentTailFrom(s, |r|, d);
    if r != [] {
      forall p | 0 <= p < |r| ensures !PercentTail(s[p..]) {
        NotPercentTailAt(s, p, d, |r| - 1);
      }
    }
  }

  /** Right-stripping `s[..d]`, which ends in a blank, cuts a non-empty
      blank run ending at `d`. */
  lemma BlankRunBefore(s: string, d: nat, r: string)
    requires 0 < d <= |s| && IsSpace(s[d - 1])
    requires r == RStrip(s[..d])
    ensures |r| < d && r == s[..|r|] && AllSpace(s[|r|..d])
    ensures r != [] ==> !IsSpace(s[|r| - 1])
  {
    assert IsSpace(s[..d][d - 1]);
    forall i | 0 <= i < d - |r| ensures IsSpace(s[|r|..d][i]) {
      assert s[|r|..d][i] == s[..d][|r| + i];
    }
    if r != [] {
      assert s[..d][|r| - 1] == s[|r| - 1];
    }
  }

  /** The `sanitize` steps (`utils.py` lines 14-17). */
  function Sanitize(b: string): (r: string)
  {
    StripPercent(StripParenGroup(Strip(LastSegment(b))))
  }

  /** Removing the two tails leaves a prefix. */
  lemma TailsRemovedIsPrefix(st: string)
    ensures var r := StripPercent(StripParenGroup(st));
      |r| <= |st| && r == st[..|r|]
  {
    var m := StripParenGroup(st);
    var r := StripPercent(m);
    assert m[..|r|] == st[..|r|];
  }

  lemma NoSepInfix(s: string, a: nat, b: nat)
    requires a <= b <= |s| && NoSep(s)
    ensures NoSep(s[a..b])
  {
    var t := s[a..b];
    forall i | 0 <= i < |t| ensures !IsSepAt(t, i) {
      if i + 3 <= |t| {
        assert !IsSepAt(s, a + i);
        assert t[i] == s[a + i] && t[i + 1] == s[a + i + 1] && t[i + 2] == s[a + i + 2];
      }
    }
  }

  /** Printable, lower-case and single-spaced: what the first three steps leave. */
  predicate Tidy(s: string)
  {
    Printable(s) && NoUpper(s) && SingleSpaced(s)
  }

  lemma TidyInfix(s: string, a: nat, b: nat)
    requires a <= b <= |s| && Tidy(s)
    ensures Tidy(s[a..b])
  {
    PrintableInfix(s, a, b);
    SingleSpacedInfix(s, a, b);
  }

  /** Trimming keeps both the shape and the absence of separators. */
  lemma StripInherits(seg: string)
    ensures Tidy(seg) ==> Tidy(Strip(seg))
    ensures NoSep(seg) ==> NoSep(Strip(seg))
  {
    if Tidy(seg) { StripKeepsTidy(seg); }
    if NoSep(seg) { StripKeepsNoSep(seg); }
  }

  lemma StripKeepsTidy(seg: string)
    requires Tidy(seg)
    ensures Tidy(Strip(seg))
  {
    var a := StripSlice(seg);
    TidyInfix(seg, a, a + |Strip(seg)|);
  }

  lemma StripKeepsNoSep(seg: string)
    requires NoSep(seg)
    ensures NoSep(Strip(seg))
  {
    var a := StripSlice(seg);
    NoSepInfix(seg, a, a + |Strip(seg)|);
  }

  /** The sanitized text is a tidy prefix of the trimmed last segment and
      holds no separator. */
  lemma SanitizeInherits(b: string)
    requires Tidy(b)
    ensures var r := Sanitize(b);
      && r == Strip(LastSegment(b))[..|r|]
      && Tidy(r) && NoSep(r)
  {
    var seg := LastSegment(b);
    var k := |b| - |seg|;
    assert seg == b[k..|b|];
    TidyInfix(b, k, |b|);
    var st := Strip(seg);
    StripInherits(seg);
    TailsRemovedIsPrefix(st);
    var r := Sanitize(b);
    assert r == st[0..|r|];
    TidyInfix(st, 0, |r|);
    NoSepInfix(st, 0, |r|);
  }

  /** `clean_window_title(title, sanitize)`. A `None` title is falsy like
      the empty string and is represented by it. */
  function CleanWindowTitle(title: string, sanitize: bool): (r: string)
    ensures title == [] ==> r == []
    ensures Printable(r) && NoUpper(r) && SingleSpaced(r)
  {
    if title == [] then []
    else
      var b := Basic(title);
      if sanitize then
        SanitizeInherits(b);
        Sanitize(b)
      else b
  }

  // ----- properties -----

  /** Without `sanitize` the result has no leading or trailing space. */
  lemma CleanBasicTrimmed(title: string)
    ensures var r := CleanWindowTitle(title, false);
      r == [] || (r[0] != ' ' && r[|r| - 1] != ' ')
  {
    if title != [] {
      BasicTrimmed(title);
      assert CleanWindowTitle(title, false) == Basic(title);
    }
  }

  lemma BasicTrimmed(title: string)
    ensures var r := Basic(title); r == [] || (r[0] != ' ' && r[|r| - 1] != ' ')
  {
  }

  /** Without `sanitize`, cleaning twice is cleaning once. */
  lemma CleanIdempotent(title: string)
    ensures CleanWindowTitle(CleanWindowTitle(title, false), false) == CleanWindowTitle(title, false)
  {
    var r := CleanWindowTitle(title, false);
    if r != [] {
      assert KeepPrintable(r) == r;
      CollapseFixed(r);
      StripFixed(r);
      LowerFixed(r);
    }
  }

  /** After the printable-ASCII filter the only separator the split can
      see is the ASCII `" - "`: em and en dashes are already gone. */
  lemma OnlyAsciiSeparator(title: string, i: int)
    ensures var b := Basic(title);
      IsSepAt(b, i) <==> (0 <= i && i + 3 <= |b| && b[i] == ' ' && b[i + 1] == '-' && b[i + 2] == ' ')
  {
    var b := Basic(title);
    if 0 <= i && i + 3 <= |b| {
      assert IsPrintable(b[i + 1]);
    }
  }

  /** No em or en dash survives cleaning. */
  lemma NoUnicodeDashes(title: string, sanitize: bool)
    ensures '\U{2014}' !in CleanWindowTitle(title, sanitize)
    ensures '\U{2013}' !in CleanWindowTitle(title, sanitize)
  {
  }

  lemma NoSepNoContains(s: string)
    requires NoSep(s)
    ensures !Contains(s, " - ")
  {
    if Contains(s, " - ") {
      var i := ContainsWitness(s, " - ");
      assert s[i] == s[i..i + 3][0] && s[i + 1] == s[i..i + 3][1] && s[i + 2] == s[i..i + 3][2];
      assert IsSepAt(s, i);
    }
  }

  /** With `sanitize`, the result never contains `" - "`, is a prefix of the
      trimmed text after the last separator, and has no outer whitespace. */
  lemma SanitizedSegment(title: string)
    requires title != []
    ensures var r := CleanWindowTitle(title, true);
      var seg := Strip(LastSegment(Basic(title)));
      && r == seg[..|r|]
      && !Contains(r, " - ")
      && (r == [] || (!IsSpace(r[0]) && !IsSpace(r[|r| - 1])))
  {
    var b := Basic(title);
    assert CleanWindowTitle(title, true) == Sanitize(b);
    TailsRemovedIsPrefix(Strip(LastSegment(b)));
    SanitizeNoDash(b);
    SanitizeTrimmed(b);
  }

  lemma SanitizeNoDash(b: string)
    requires Tidy(b)
    ensures !Contains(Sanitize(b), " - ")
  {
    SanitizeInherits(b);
    NoSepNoContains(Sanitize(b));
  }

  lemma SanitizeTrimmed(b: string)
    ensures var r := Sanitize(b);
      r == [] || (!IsSpace(r[0]) && !IsSpace(r[|r| - 1]))
  {
    var seg := LastSegment(b);
    var st := Strip(seg);
    assert st == [] || (!IsSpace(st[0]) && !IsSpace(st[|st| - 1]));
    TailsTrimmed(st);
    assert Sanitize(b) == StripPercent(StripParenGroup(st));
  }

  /** Removing the tails from a trimmed text leaves a trimmed text. */
  lemma TailsTrimmed(st: string)
    requires st == [] || (!IsSpace(st[0]) && !IsSpace(st[|st| - 1]))
    ensures var r := StripPercent(StripParenGroup(st));
      r == [] || (!IsSpace(r[0]) && !IsSpace(r[|r| - 1]))
  {
    var r := StripPercent(StripParenGroup(st));
    TailsRemovedIsPrefix(st);
    if r != [] {
      assert r[0] == st[0];
    }
  }

}
