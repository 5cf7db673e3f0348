/**
 * The IdP catalog of the embedded discovery widget: the JSON records it
 * loads from the discovery feed, the language settings it derives from the
 * browser, and the lookups it performs on them (IdP by entityID, localized
 * display name, 16x16 icon, URL without protocol and host).
 */
module Catalog {
  import opened Wrappers
  import Text

  /** A localized value: a display name or a logo. A `null` language is `None`. */
  datatype Entry = Entry(lang: Option<string>, value: string)

  /** A logo: its declared height and width (as written in the feed), language and URL. */
  datatype Logo = Logo(height: string, width: string, lang: Option<string>, value: string)

  datatype Provider = Provider(entityId: string, names: seq<Entry>, logos: seq<Logo>)

  /**
   * The widget's language settings: the browser language, its major part
   * (the text before a '-' that is not the first character, when there is one)
   * and the configured default language.
   */
  datatype Locale = Locale(lang: string, major: Option<string>, defaultLang: string)

  function MakeLocale(lang: string, defaultLang: string): (r: Locale)
    ensures r.lang == lang && r.defaultLang == defaultLang
    ensures r.major.Some? <==> Text.IndexOf(lang, "-") > 0
    ensures r.major.Some? ==> Text.StartsWith(lang, r.major.value + "-")
                              && !Text.Contains(r.major.value, "-")
                              && |r.major.value| > 0
  {
    var i := Text.IndexOf(lang, "-");
    if i > 0 then
      assert lang[..i + 1] == lang[..i] + "-";
      assert forall j :: 0 <= j < i ==> Text.OccursAt(lang[..i], "-", j) ==> Text.OccursAt(lang, "-", j);
      Locale(lang, Some(lang[..i]), defaultLang)
    else Locale(lang, None, defaultLang)
  }

  /** The catalog record with the given entityID: the first one, or `None`. */
  function GetIdPFor(catalog: seq<Provider>, id: string): (r: Option<Provider>)
    ensures r.None? <==> forall k :: 0 <= k < |catalog| ==> catalog[k].entityId != id
    ensures r.Some? ==> exists k :: 0 <= k < |catalog| && catalog[k] == r.value
                           && forall j :: 0 <= j < k ==> catalog[j].entityId != id
    ensures r.Some? ==> r.value.entityId == id && r.value in catalog
  {
    if |catalog| == 0 then None
    else if catalog[0].entityId == id then Some(catalog[0])
    else
      var r := GetIdPFor(catalog[1..], id);
      assert forall k :: 1 <= k < |catalog| ==> catalog[k] == catalog[1..][k - 1];
      r
  }

  /** The value of the first entry whose language is `l`. */
  function FirstWithLang(entries: seq<Entry>, l: Option<string>): (r: Option<string>)
    ensures r.None? <==> forall k :: 0 <= k < |entries| ==> entries[k].lang != l
    ensures r.Some? ==> exists k :: 0 <= k < |entries| && entries[k] == Entry(l, r.value)
                           && forall j :: 0 <= j < k ==> entries[j].lang != l
  {
    if |entries| == 0 then None
    else if entries[0].lang == l then Some(entries[0].value)
    else
      var r := FirstWithLang(entries[1..], l);
      assert forall k :: 1 <= k < |entries| ==> entries[k] == entries[1..][k - 1];
      r
  }

  /** The languages `LocalizedEntry` accepts, in the order it tries them. */
  function Preference(loc: Locale): (r: seq<Option<string>>)
    ensures |r| == 3 || |r| == 4
    ensures r[0] == Some(loc.lang) && r[|r| - 1] == Some(loc.defaultLang) && r[|r| - 2] == None
  {
    if loc.major.Some? then [Some(loc.lang), Some(loc.major.value), None, Some(loc.defaultLang)]
    else [Some(loc.lang), None, Some(loc.defaultLang)]
  }

  /** The first language of `prefs` that some entry carries, with that entry's value. */
  function ByPreference(entries: seq<Entry>, prefs: seq<Option<string>>): (r: Option<string>)
    ensures r.None? <==> forall i, k :: 0 <= i < |prefs| && 0 <= k < |entries| ==> entries[k].lang != prefs[i]
    ensures r.Some? ==> exists i :: 0 <= i < |prefs| && r == FirstWithLang(entries, prefs[i])
                           && forall j :: 0 <= j < i ==> FirstWithLang(entries, prefs[j]).None?
  {
    if |prefs| == 0 then None
    else
      var first := FirstWithLang(entries, prefs[0]);
      if first.Some? then first
      else
        var r := ByPreference(entries, prefs[1..]);
        assert forall i :: 1 <= i < |prefs| ==> prefs[i] == prefs[1..][i - 1];
        r
  }

  /**
   * `getLocalizedEntry`: an entry in the browser language, else in its major
   * language, else one without a language, else one in the default language.
   */
  function LocalizedEntry(entries: seq<Entry>, loc: Locale): (r: Option<string>)
    ensures r.None? <==> forall i, k :: 0 <= i < |Preference(loc)| && 0 <= k < |entries| ==>
                           entries[k].lang != Preference(loc)[i]
    ensures FirstWithLang(entries, Some(loc.lang)).Some? ==> r == FirstWithLang(entries, Some(loc.lang))
    ensures r.Some? ==> exists k :: 0 <= k < |entries| && entries[k].value == r.value
  {
    ByPreference(entries, Preference(loc))
  }

  /** `getLocalizedName`: the localized display name, falling back to the entityID. */
  function LocalizedName(p: Provider, loc: Locale): (r: string)
    ensures LocalizedEntry(p.names, loc).None? ==> r == p.entityId
    ensures LocalizedEntry(p.names, loc).Some? ==> r == LocalizedEntry(p.names, loc).value
  {
    match LocalizedEntry(p.names, loc)
    case Some(n) => n
    case None => p.entityId
  }

  /** A logo `geticon` accepts: 16 by 16, in no language, the browser's, its major or the default. */
  predicate IconFits(l: Logo, loc: Locale) {
    l.height == "16" && l.width == "16"
    && (l.lang.None? || l.lang == Some(loc.lang)
        || (loc.major.Some? && l.lang == Some(loc.major.value))
        || l.lang == Some(loc.defaultLang))
  }

  /** `geticon`: the first logo that fits, or `None`. */
  function GetIcon(logos: seq<Logo>, loc: Locale): (r: Option<string>)
    ensures r.None? <==> forall k :: 0 <= k < |logos| ==> !IconFits(logos[k], loc)
    ensures r.Some? ==> exists k :: 0 <= k < |logos| && IconFits(logos[k], loc)
                           && logos[k].value == r.value
                           && forall j :: 0 <= j < k ==> !IconFits(logos[j], loc)
  {
    if |logos| == 0 then None
    else if IconFits(logos[0], loc) then Some(logos[0].value)
    else
      var r := GetIcon(logos[1..], loc);
      assert forall k :: 1 <= k < |logos| ==> logos[k] == logos[1..][k - 1];
      r
  }

  /**
   * `stripHostName`: the URL without "protocol://host". A `null` URL and one
   * without "://" come back unchanged; when no '/' follows the host, the bare
   * host is returned.
   */
  function StripHostName(s: Option<string>): (r: Option<string>)
    ensures s.None? ==> r.None?
    ensures s.Some? && !Text.Contains(s.value, "://") ==> r == s
    ensures s.Some? && Text.Contains(s.value, "://") ==>
      var after := s.value[Text.IndexOf(s.value, "://") + 3..];
      r.Some? && Text.EndsWith(after, r.value)
      && !Text.Contains(after[..|after| - |r.value|], "/")
      && (Text.Contains(after, "/") <==> Text.StartsWith(r.value, "/"))
    ensures s.Some? && Text.Contains(s.value, "://")
            && !Text.Contains(s.value[Text.IndexOf(s.value, "://") + 3..], "/")
      ==> r == Some(s.value[Text.IndexOf(s.value, "://") + 3..])
  {
    match s
    case None => None
    case Some(u) =>
      var p := Text.IndexOf(u, "://");
      if p < 0 then s
      else
        var after := u[p + 3..];
        var h := Text.IndexOf(after, "/");
        if h < 0 then Some(after)
        else
          StripHelper(after, h);
          Some(after[h..])
  }

  lemma StripHelper(after: string, h: int)
    requires 0 <= h < |after| && h == Text.IndexOf(after, "/")
    ensures Text.EndsWith(after, after[h..])
    ensures !Text.Contains(after[..h], "/")
    ensures Text.StartsWith(after[h..], "/")
  {
    assert Text.OccursAt(after, "/", h);
    forall j | 0 <= j <= h - 1 ensures !Text.OccursAt(after[..h], "/", j) {
      if Text.OccursAt(after[..h], "/", j) {
        assert after[j] == after[..h][j];
        assert Text.OccursAt(after, "/", j);
      }
    }
  }
}
