/** The save step of the older configuration window in layout.py. Its
    selection check and its layout preview are the same code as in
    lib/layout.py and are modelled once, in `Layout`; what differs is how
    the configuration name is cleaned and that the rows keep the order of
    the selection. */
module LegacyLayout {
  import opened Common
  import opened Text
  import Layout
  import CS = ConfigStore

  /** The characters of the class `[<>:"/\\|?*]`, which cannot appear in a
      Windows file name. */
  predicate Forbidden(c: char)
  {
    c in "<>:\"/\\|?*"
  }

  /** `re.sub(r'[<>:"/\\|?*]', '', s)`. */
  function RemoveForbidden(s: string): (r: string)
    ensures |r| <= |s|
    ensures forall i :: 0 <= i < |r| ==> !Forbidden(r[i])
  {
    if s == [] then []
    else if Forbidden(s[0]) then RemoveForbidden(s[1..])
    else [s[0]] + RemoveForbidden(s[1..])
  }

  /** The substitution works character by character: it keeps the order of
      what it keeps. */
  lemma {:induction false} RemoveForbiddenAppend(a: string, b: string)
    ensures RemoveForbidden(a + b) == RemoveForbidden(a) + RemoveForbidden(b)
  {
    if a == [] {
      assert a + b == b;
    } else {
      assert (a + b)[0] == a[0] && (a + b)[1..] == a[1..] + b;
      RemoveForbiddenAppend(a[1..], b);
    }
  }

  /** A name without forbidden characters passes unchanged. */
  lemma {:induction false} RemoveForbiddenFixed(s: string)
    requires forall i :: 0 <= i < |s| ==> !Forbidden(s[i])
    ensures RemoveForbidden(s) == s
  {
    if s != [] {
      RemoveForbiddenFixed(s[1..]);
    }
  }

  /** Substituting a second time changes nothing. */
  lemma RemoveForbiddenIdempotent(s: string)
    ensures RemoveForbidden(RemoveForbidden(s)) == RemoveForbidden(s)
  {
    RemoveForbiddenFixed(RemoveForbidden(s));
  }

  /** The name `on_save` saves under: stripped, then rid of the forbidden
      characters. */
  function LegacyConfigName(text: string): (name: string)
  {
    RemoveForbidden(Strip(text))
  }

  /** Stripping comes first, so a forbidden character can shield a blank
      that then survives at the edge of the name. */
  lemma LegacyNameKeepsBlank()
    ensures LegacyConfigName("< a") == " a"
  {
    StrippedExample();
    RemovedExample();
  }

  lemma StrippedExample()
    ensures Strip("< a") == "< a"
  {
    var text := "< a";
    assert !IsSpace(text[0]) && !IsSpace(text[2]);
    StripFixed(text);
  }

  lemma RemovedExample()
    ensures RemoveForbidden("< a") == " a"
  {
    var text := "< a";
    assert Forbidden(text[0]) && !Forbidden(text[1]) && !Forbidden(text[2]);
    assert text[1..][1..][1..] == [];
  }

  /** `on_save()` up to the call of `save_callback`: `None` where the name
      is empty and an error is shown; the rows are used in the order they
      are given, without the sort by position of lib/layout.py. */
  function LegacySaveRequest(rows: seq<Layout.Row>, text: string): Option<(string, CS.WindowData)>
  {
    var name := LegacyConfigName(text);
    if name == [] then None else Some((name, Layout.ConfigData(rows)))
  }

  /** A request is made exactly when a name is left, and that name holds no
      forbidden character and is not changed by cleaning it again. */
  lemma LegacySaveRequestSpec(rows: seq<Layout.Row>, text: string)
    ensures LegacySaveRequest(rows, text).None? <==> LegacyConfigName(text) == []
    ensures Strip(text) == [] ==> LegacySaveRequest(rows, text).None?
    ensures LegacySaveRequest(rows, text).Some? ==>
      var (name, data) := LegacySaveRequest(rows, text).value;
      && data == Layout.ConfigData(rows)
      && (forall i :: 0 <= i < |name| ==> !Forbidden(name[i]))
      && RemoveForbidden(name) == name
  {
    RemoveForbiddenIdempotent(Strip(text));
  }
}
