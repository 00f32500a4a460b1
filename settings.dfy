// The application settings file settings.json: `load_settings` and
// `save_settings` in lib/config_manager.py (compact mode and image use)
// and in config_manager.py (compact mode only). The file is a value: absent,
// unreadable or not JSON, or a stored JSON document.

module AppSettings {
  /** A JSON document as `json.load` returns it (numbers are integers). */
  datatype Json =
    | JNull
    | JBool(b: bool)
    | JNum(n: int)
    | JStr(s: string)
    | JArray(elems: seq<Json>)
    | JObject(fields: seq<(string, Json)>)

  /** The settings file: missing, present but failing to open or to parse,
      or holding a JSON document. */
  datatype SettingsFile = Absent | Garbled | Stored(doc: Json)

  const COMPACT := "compact"
  const USE_IMAGES := "use_images"

  /** `dict.get(key, fallback)` on a decoded JSON object; when the text
      repeats a key, the last occurrence wins. */
  function Field(fields: seq<(string, Json)>, key: string, fallback: Json): (r: Json)
    ensures (forall i :: 0 <= i < |fields| ==> fields[i].0 != key) ==> r == fallback
    ensures (exists i :: 0 <= i < |fields| && fields[i].0 == key) ==> exists i :: LastAt(fields, key, i) && r == fields[i].1
    decreases |fields|
  {
    if fields == [] then fallback
    else if fields[|fields| - 1].0 == key then fields[|fields| - 1].1
    else
      var init := fields[..|fields| - 1];
      assert forall i :: 0 <= i < |init| ==> init[i] == fields[i];
      assert forall i :: LastAt(init, key, i) ==> LastAt(fields, key, i);
      Field(init, key, fallback)
  }

  /** Position `i` holds the last entry for `key`; a JSON object with a
      repeated key reads as its last value. */
  predicate LastAt(fields: seq<(string, Json)>, key: string, i: int)
  {
    0 <= i < |fields| && fields[i].0 == key && forall j :: i < j < |fields| ==> fields[j].0 != key
  }

  /** The later `ConfigManager.load_settings`: the stored `compact` and
      `use_images` values, each `False` when missing; `(False, False)` when
      the file is absent, unreadable, or not a JSON object (whose `.get`
      raises). */
  function LoadSettings(f: SettingsFile): (r: (Json, Json))
    ensures !(f.Stored? && f.doc.JObject?) ==> r == (JBool(false), JBool(false))
    ensures f.Stored? && f.doc.JObject? ==>
      && (forall i :: 0 <= i < |f.doc.fields| ==> f.doc.fields[i].0 != COMPACT) ==> r.0 == JBool(false)
    ensures f.Stored? && f.doc.JObject? ==>
      && (forall i :: 0 <= i < |f.doc.fields| ==> f.doc.fields[i].0 != USE_IMAGES) ==> r.1 == JBool(false)
    ensures f.Stored? && f.doc.JObject? && (exists i :: 0 <= i < |f.doc.fields| && f.doc.fields[i].0 == COMPACT) ==>
      exists i :: LastAt(f.doc.fields, COMPACT, i) && r.0 == f.doc.fields[i].1
    ensures f.Stored? && f.doc.JObject? && (exists i :: 0 <= i < |f.doc.fields| && f.doc.fields[i].0 == USE_IMAGES) ==>
      exists i :: LastAt(f.doc.fields, USE_IMAGES, i) && r.1 == f.doc.fields[i].1
  {
    match f
    case Stored(JObject(fs)) => (Field(fs, COMPACT, JBool(false)), Field(fs, USE_IMAGES, JBool(false)))
    case _ => (JBool(false), JBool(false))
  }

  /** The earlier `ConfigManager.load_settings`: the stored `compact` value,
      `True` when it is missing and in every failure case. */
  function LoadCompact(f: SettingsFile): (r: Json)
    ensures !(f.Stored? && f.doc.JObject?) ==> r == JBool(true)
    ensures f.Stored? && f.doc.JObject? ==>
      && (forall i :: 0 <= i < |f.doc.fields| ==> f.doc.fields[i].0 != COMPACT) ==> r == JBool(true)
    ensures f.Stored? && f.doc.JObject? && (exists i :: 0 <= i < |f.doc.fields| && f.doc.fields[i].0 == COMPACT) ==>
      exists i :: LastAt(f.doc.fields, COMPACT, i) && r == f.doc.fields[i].1
  {
    match f
    case Stored(JObject(fs)) => Field(fs, COMPACT, JBool(true))
    case _ => JBool(true)
  }

  /** The later `save_settings`: on success the file holds exactly the two
      flags; when the file cannot be opened for writing nothing changes and
      `False` is returned. */
  function SaveSettings(f: SettingsFile, compact: bool, useImages: bool, writable: bool): (r: (bool, SettingsFile))
    ensures r.0 == writable
    ensures !writable ==> r.1 == f
    ensures writable ==> r.1.Stored? && r.1.doc.JObject? && |r.1.doc.fields| == 2
  {
    if writable then (true, Stored(JObject([(COMPACT, JBool(compact)), (USE_IMAGES, JBool(useImages))])))
    else (false, f)
  }

  /** The earlier `save_settings`, with the compact flag only. */
  function SaveCompact(f: SettingsFile, compact: bool, writable: bool): (r: (bool, SettingsFile))
    ensures r.0 == writable
    ensures !writable ==> r.1 == f
    ensures writable ==> r.1.Stored? && r.1.doc.JObject? && |r.1.doc.fields| == 1
  {
    if writable then (true, Stored(JObject([(COMPACT, JBool(compact))])))
    else (false, f)
  }

  /** What a successful save stores is what the next load returns. */
  lemma SettingsRoundTrip(f: SettingsFile, compact: bool, useImages: bool)
    ensures LoadSettings(SaveSettings(f, compact, useImages, true).1) == (JBool(compact), JBool(useImages))
  {
    var fs := [(COMPACT, JBool(compact)), (USE_IMAGES, JBool(useImages))];
    assert fs[..1] == [(COMPACT, JBool(compact))];
    assert COMPACT != USE_IMAGES;
    assert Field(fs, COMPACT, JBool(false)) == Field(fs[..1], COMPACT, JBool(false));
  }

  lemma CompactRoundTrip(f: SettingsFile, compact: bool)
    ensures LoadCompact(SaveCompact(f, compact, true).1) == JBool(compact)
  {
  }

  /** A file written by the earlier version has no `use_images` entry, so
      the later version reads it with images switched off. */
  lemma EarlierFileInLater(f: SettingsFile, compact: bool)
    ensures LoadSettings(SaveCompact(f, compact, true).1) == (JBool(compact), JBool(false))
  {
  }
}
