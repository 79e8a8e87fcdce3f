/**
 * `ProducesMatcherOptions`: the media type constants and the case-insensitive
 * map from `$format` query-string values to media types.
 */
module MatcherOptions {
  import opened Wrappers
  import opened MediaTypes

  /** `MediaTypeNames.Text.Html`. */
  const TextHtmlName: string := "text/html"
  /** `AdditionalMediaTypeNames.Application.Json`. */
  const ApplicationJsonName: string := "application/json"

  /** `MediaTypes.Text.Html`. */
  const Html: MediaType := MediaType("text", "html", None)
  /** `MediaTypes.Application.Json`. */
  const Json: MediaType := MediaType("application", "json", None)

  /** `MediaTypes.Text.Html` is the media type `new MediaType("text/html")` parses to. */
  lemma HtmlConstant()
    ensures Parse(TextHtmlName) == Html
  {
    assert WellFormed(Html) && Format(Html) == TextHtmlName;
    ParseFormat(Html);
  }

  /** `MediaTypes.Application.Json` is the media type `new MediaType("application/json")` parses to. */
  lemma JsonConstant()
    ensures Parse(ApplicationJsonName) == Json
  {
    assert WellFormed(Json) && Format(Json) == ApplicationJsonName;
    ParseFormat(Json);
  }

  /**
   * A `Dictionary<string, MediaType>` built with `StringComparer.OrdinalIgnoreCase`:
   * entries in insertion order, each keeping the spelling its key was first added with.
   */
  datatype FormatMappings = FormatMappings(entries: seq<(string, MediaType)>)

  /** No two keys differ only in case. */
  predicate ValidMappings(m: FormatMappings) {
    forall i, j :: 0 <= i < j < |m.entries| ==> !EqualsIgnoreCase(m.entries[i].0, m.entries[j].0)
  }

  /** Position of the entry whose key equals `key` ignoring case, or `|entries|`. */
  function KeyIndex(entries: seq<(string, MediaType)>, key: string): (r: nat)
    ensures r <= |entries|
    ensures r < |entries| ==> EqualsIgnoreCase(entries[r].0, key)
    ensures forall i :: 0 <= i < r ==> !EqualsIgnoreCase(entries[i].0, key)
  {
    if entries == [] then 0
    else if EqualsIgnoreCase(entries[0].0, key) then 0
    else 1 + KeyIndex(entries[1..], key)
  }

  /** `TryGetValue(key, out value)`. */
  function Lookup(m: FormatMappings, key: string): (r: Option<MediaType>)
    ensures r.Some? <==> exists i :: 0 <= i < |m.entries| && EqualsIgnoreCase(m.entries[i].0, key)
    ensures ValidMappings(m) ==>
      forall i :: 0 <= i < |m.entries| && EqualsIgnoreCase(m.entries[i].0, key) ==> r == Some(m.entries[i].1)
  {
    var i := KeyIndex(m.entries, key);
    if i < |m.entries| then Some(m.entries[i].1) else None
  }

  /** The indexer `mappings[key] = value`: replaces the value of a key equal ignoring case, or appends. */
  function Set(m: FormatMappings, key: string, value: MediaType): FormatMappings {
    var i := KeyIndex(m.entries, key);
    if i < |m.entries| then FormatMappings(m.entries[i := (m.entries[i].0, value)])
    else FormatMappings(m.entries + [(key, value)])
  }

  /** The default `UserDefinedFormatToContentTypeMappings`. */
  const DefaultMappings: FormatMappings := FormatMappings([("html", Html), ("json", Json)])

  /** Looking a key up ignores its case: `JSON`, `Json` and `json` find the same entry. */
  lemma LookupIgnoresCase(m: FormatMappings, k1: string, k2: string)
    requires EqualsIgnoreCase(k1, k2)
    ensures Lookup(m, k1) == Lookup(m, k2)
  {
    forall i | 0 <= i < |m.entries|
      ensures EqualsIgnoreCase(m.entries[i].0, k1) <==> EqualsIgnoreCase(m.entries[i].0, k2)
    {
    }
  }

  /**
   * Setting a key keeps the map valid and adds an entry exactly when no key
   * equal ignoring case was there: a key that differs from an existing one
   * only in case replaces that entry.
   */
  lemma SetKeepsValid(m: FormatMappings, key: string, value: MediaType)
    requires ValidMappings(m)
    ensures ValidMappings(Set(m, key, value))
    ensures |Set(m, key, value).entries| == |m.entries| + (if Lookup(m, key).Some? then 0 else 1)
  {
    var r := Set(m, key, value);
    var i := KeyIndex(m.entries, key);
    assert forall j :: 0 <= j < |m.entries| ==> r.entries[j].0 == m.entries[j].0;
    if i == |m.entries| {
      assert r.entries[i].0 == key;
    }
  }

  /**
   * After setting a key, the key (in any case) finds the new value and every
   * other key finds what it found before.
   */
  lemma SetLookup(m: FormatMappings, key: string, value: MediaType)
    requires ValidMappings(m)
    ensures forall k :: EqualsIgnoreCase(k, key) ==> Lookup(Set(m, key, value), k) == Some(value)
    ensures forall k :: !EqualsIgnoreCase(k, key) ==> Lookup(Set(m, key, value), k) == Lookup(m, k)
  {
    SetKeepsValid(m, key, value);
    var r := Set(m, key, value);
    var i := KeyIndex(m.entries, key);
    assert forall j :: 0 <= j < |m.entries| ==> r.entries[j].0 == m.entries[j].0;
    forall k | EqualsIgnoreCase(k, key) ensures Lookup(r, k) == Some(value) {
      assert EqualsIgnoreCase(r.entries[i].0, k);
    }
    forall k | !EqualsIgnoreCase(k, key) ensures Lookup(r, k) == Lookup(m, k) {
      if Lookup(m, k).Some? {
        var j := KeyIndex(m.entries, k);
        assert EqualsIgnoreCase(r.entries[j].0, k);
      }
    }
  }

  lemma FoldedKeys()
    ensures Fold("html") == "html" && Fold("json") == "json"
  {
  }

  lemma DefaultKeyIndex(k: string)
    ensures KeyIndex(DefaultMappings.entries, k) ==
      if EqualsIgnoreCase(k, "html") then 0 else if EqualsIgnoreCase(k, "json") then 1 else 2
  {
    FoldedKeys();
  }

  /** The default map holds exactly `html` for `text/html` and `json` for `application/json`. */
  lemma DefaultMappingsContents()
    ensures ValidMappings(DefaultMappings) && |DefaultMappings.entries| == 2
    ensures forall k :: EqualsIgnoreCase(k, "html") ==> Lookup(DefaultMappings, k) == Some(Html)
    ensures forall k :: EqualsIgnoreCase(k, "json") ==> Lookup(DefaultMappings, k) == Some(Json)
    ensures forall k :: !EqualsIgnoreCase(k, "html") && !EqualsIgnoreCase(k, "json") ==> Lookup(DefaultMappings, k).None?
  {
    FoldedKeys();
    forall k | EqualsIgnoreCase(k, "html") ensures Lookup(DefaultMappings, k) == Some(Html) {
      DefaultKeyIndex(k);
    }
    forall k | EqualsIgnoreCase(k, "json") ensures Lookup(DefaultMappings, k) == Some(Json) {
      DefaultKeyIndex(k);
    }
    forall k | !EqualsIgnoreCase(k, "html") && !EqualsIgnoreCase(k, "json")
      ensures Lookup(DefaultMappings, k).None?
    {
      DefaultKeyIndex(k);
    }
  }
}
