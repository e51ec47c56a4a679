/**
 * The URILang library: it picks the active language of a request from four
 * candidate sources in a fixed priority order (the first URI segment, the
 * `pref_lang` cookie, the Accept-Language header, the configured default),
 * keeps the first candidate that the `supported_languages` registry holds,
 * and writes that choice back to the cookie and to the `language` config item.
 *
 * The framework reads of the URI segment, the cookie and the header are
 * parameters here; `None` is what the framework returns when one is absent.
 */
module Urilang {
  import opened Wrappers
  import opened PhpArray

  // ---------------------------------------------------------------------------
  // Candidates
  // ---------------------------------------------------------------------------

  /** A PHP `null` used as an array key is the key "". */
  function KeyOf(source: Option<string>): (r: string)
    ensures source.None? ==> r == ""
    ensures source.Some? ==> r == source.value
  {
    source.GetOr("")
  }

  /** ASCII upper-case letters. */
  predicate IsUpper(c: char)
  {
    'A' <= c <= 'Z'
  }

  /** `strtolower` on one character, restricted to ASCII. */
  function LowerChar(c: char): (r: char)
    ensures !IsUpper(r)
    ensures IsUpper(c) ==> 'a' <= r <= 'z' && r as int - 'a' as int == c as int - 'A' as int
    ensures !IsUpper(c) ==> r == c
  {
    if IsUpper(c) then (c as int + 32) as char else c
  }

  /** `strtolower` on a string, restricted to ASCII: each character lowered in place. */
  function Lower(s: string): (r: string)
    ensures |r| == |s|
    ensures forall i :: 0 <= i < |s| ==> r[i] == LowerChar(s[i])
  {
    if s == [] then []
    else
      var rest := Lower(s[1..]);
      assert forall i :: 1 <= i < |s| ==> s[1..][i - 1] == s[i];
      [LowerChar(s[0])] + rest
  }

  /**
   * `get_lang_by_request_header`: the Accept-Language header lower-cased and cut
   * to its first two characters (`substr(strtolower(h), 0, 2)`); an absent
   * header gives "".
   */
  function HeaderCandidate(header: Option<string>): (r: string)
    ensures var raw := KeyOf(header);
      && |r| == (if |raw| < 2 then |raw| else 2)
      && r == Lower(raw)[..|r|]
    ensures forall i :: 0 <= i < |r| ==> !IsUpper(r[i])
  {
    var lowered := Lower(KeyOf(header));
    if |lowered| <= 2 then lowered else lowered[..2]
  }

  /** A candidate is accepted when it is non-empty and a key of the registry. */
  predicate Accepted(reg: Assoc, lang: string): (b: bool)
    ensures b <==> lang != "" && exists i :: 0 <= i < |reg| && reg[i].key == lang
  {
    lang != "" && HasKey(reg, lang)
  }

  /**
   * The value `find_supported_lang` computes: the first accepted element of
   * `langs`, or "" when there is none.
   */
  function FirstSupported(reg: Assoc, langs: seq<string>): (r: string)
    ensures r == "" || (Accepted(reg, r) && r in langs)
  {
    if langs == [] then ""
    else if Accepted(reg, langs[0]) then langs[0]
    else
      var r := FirstSupported(reg, langs[1..]);
      assert r in langs[1..] ==> r in langs;
      r
  }

  /**
   * `get_default_lang`: the code whose display name is the configured `language`
   * (the first one, should several share it), and "en" when no registry entry
   * has that display name, whether or not "en" is itself supported.
   */
  function DefaultLang(reg: Assoc, language: Option<string>): (r: string)
    ensures language.Some? && InArray(reg, language.value) ==>
      exists i :: 0 <= i < |reg| && reg[i] == Entry(r, language.value)
        && forall j :: 0 <= j < i ==> reg[j].value != language.value
    ensures !(language.Some? && InArray(reg, language.value)) ==> r == "en"
    ensures r == "en" || HasKey(reg, r)
  {
    if language.Some? && InArray(reg, language.value)
    then Search(reg, language.value).value
    else "en"
  }

  /** The candidate list `determine_new_lang` builds, in priority order. */
  function PotentialLangs(reg: Assoc, language: Option<string>,
                          uri: Option<string>, cookie: Option<string>, header: Option<string>): (r: seq<string>)
    ensures |r| == 4
    ensures r[0] == KeyOf(uri) && r[1] == KeyOf(cookie)
    ensures |r[2]| <= 2 && forall i :: 0 <= i < |r[2]| ==> !IsUpper(r[2][i])
    ensures r[3] == "en" || HasKey(reg, r[3])
  {
    [KeyOf(uri), KeyOf(cookie), HeaderCandidate(header), DefaultLang(reg, language)]
  }

  /** The language `determine_new_lang` settles on; "" when no candidate is supported. */
  function Resolve(reg: Assoc, language: Option<string>,
                   uri: Option<string>, cookie: Option<string>, header: Option<string>): (r: string)
    ensures r == "" || (Accepted(reg, r) && r in PotentialLangs(reg, language, uri, cookie, header))
  {
    FirstSupported(reg, PotentialLangs(reg, language, uri, cookie, header))
  }

  // ---------------------------------------------------------------------------
  // Queries
  // ---------------------------------------------------------------------------

  /**
   * `get_lang_array`: the current language's entry followed by the whole
   * registry, the duplicate key collapsing to its first occurrence. `None` when
   * the current language has no display name, where the source reads an
   * undefined index.
   */
  function LangArray(reg: Assoc, lang: string): (r: Option<Assoc>)
    ensures r.None? <==> !HasKey(reg, lang)
    ensures r.Some? ==> |r.value| >= 1 && r.value[0].key == lang && Get(reg, lang) == Some(r.value[0].value)
    ensures r.Some? ==> forall k :: Get(r.value, k) == Get(reg, k)
    ensures r.Some? && UniqueKeys(reg) ==> UniqueKeys(r.value)
  {
    match Get(reg, lang)
    case None => None
    case Some(name) =>
      var head := [Entry(lang, name)];
      assert forall k :: Get(head, k) == if k == lang then Some(name) else None;
      Some(Union(head, reg))
  }

  /** What `selected_language` returns: the bare code, or a one-entry array. */
  datatype Selection = Code(code: string) | Full(entries: Assoc)

  /**
   * `selected_language($fullResponse)`: the code alone, or `{code => name}`;
   * the latter is `None` when the current language has no display name.
   */
  function SelectedLanguage(reg: Assoc, lang: string, full: bool): (r: Option<Selection>)
    ensures !full ==> r == Some(Code(lang))
    ensures full ==> (r.Some? <==> HasKey(reg, lang))
    ensures full && r.Some? ==>
      r.value.Full? && |r.value.entries| == 1 && r.value.entries[0].key == lang
      && Get(reg, lang) == Some(r.value.entries[0].value)
  {
    if !full then Some(Code(lang))
    else
      match Get(reg, lang)
      case None => None
      case Some(name) => Some(Full([Entry(lang, name)]))
  }

  /** What one resolution pass reports. */
  datatype Resolution = Resolved(code: string, name: string) | NoCandidateSupported

  // ---------------------------------------------------------------------------
  // The resolver object
  // ---------------------------------------------------------------------------

  class URILang {
    /** `_supported_langs`: the registry, loaded once at construction. */
    const supportedLangs: Assoc
    /** `_lang`: the resolved language code. */
    var lang: string
    /** The `language` config item: a display name, or null when the source read an undefined index. */
    var configLanguage: Option<string>
    /** The value of the `pref_lang` cookie written last, if any. */
    var prefLangCookie: Option<string>

    /**
     * The registry is a PHP array, so its keys are unique (recorded here as the
     * shape of the configuration, not needed by any proof), and `_lang` is ""
     * or an accepted code.
     */
    ghost predicate Valid()
      reads this
    {
      UniqueKeys(supportedLangs) && (lang == "" || Accepted(supportedLangs, lang))
    }

    /** After a resolution pass, the config item and the cookie agree with `_lang`. */
    ghost predicate Committed()
      reads this
    {
      configLanguage == Get(supportedLangs, lang) && prefLangCookie == Some(lang)
    }

    /**
     * `__construct`: loads the registry and the configured default display name,
     * then runs one resolution pass.
     */
    constructor (supported: Assoc, language: string,
                 uri: Option<string>, cookie: Option<string>, header: Option<string>)
      requires UniqueKeys(supported)
      ensures Valid() && Committed()
      ensures supportedLangs == supported
      ensures lang == Resolve(supported, Some(language), uri, cookie, header)
    {
      supportedLangs := supported;
      lang := "";
      configLanguage := Some(language);
      prefLangCookie := None;
      new;
      var _ := DetermineNewLang(uri, cookie, header);
    }

    /** `lang_is_supported`. */
    function LangIsSupported(code: string): (b: bool)
      reads this
      ensures b <==> exists i :: 0 <= i < |supportedLangs| && supportedLangs[i].key == code
    {
      HasKey(supportedLangs, code)
    }

    /** `get_default_lang`, reading the current `language` config item. */
    function GetDefaultLang(): (r: string)
      reads this
      ensures configLanguage.Some? && InArray(supportedLangs, configLanguage.value) ==>
        exists i :: 0 <= i < |supportedLangs| && supportedLangs[i] == Entry(r, configLanguage.value)
          && forall j :: 0 <= j < i ==> supportedLangs[j].value != configLanguage.value
      ensures !(configLanguage.Some? && InArray(supportedLangs, configLanguage.value)) ==> r == "en"
    {
      DefaultLang(supportedLangs, configLanguage)
    }

    /** `get_lang_array`. */
    function GetLangArray(): (r: Option<Assoc>)
      reads this
      ensures r.None? <==> !LangIsSupported(lang)
      ensures r.Some? ==> (|r.value| >= 1 && r.value[0].key == lang
        && forall k :: Get(r.value, k) == Get(supportedLangs, k))
    {
      LangArray(supportedLangs, lang)
    }

    /** `selected_language`. */
    function GetSelectedLanguage(full: bool): (r: Option<Selection>)
      reads this
      ensures !full ==> r == Some(Code(lang))
      ensures full ==> (r.Some? <==> LangIsSupported(lang))
      ensures full && r.Some? ==> r.value == Full([Entry(lang, Get(supportedLangs, lang).value)])
    {
      SelectedLanguage(supportedLangs, lang, full)
    }

    /** `find_supported_lang`: scans `langs` and keeps the first supported one. */
    method FindSupportedLang(langs: seq<string>) returns (firstMatch: string)
      ensures firstMatch == FirstSupported(supportedLangs, langs)
      ensures firstMatch == "" || (LangIsSupported(firstMatch) && firstMatch in langs)
    {
      firstMatch := "";
      for i := 0 to |langs|
        invariant FirstSupported(supportedLangs, langs)
          == if firstMatch != "" then firstMatch else FirstSupported(supportedLangs, langs[i..])
      {
        assert langs[i..][1..] == langs[i + 1..];
        if firstMatch == "" && LangIsSupported(langs[i]) {
          firstMatch := langs[i];
        }
      }
    }

    /** `_set_new_cookie`: expires the old `pref_lang` cookie and writes `value`. */
    method SetNewCookie(value: string)
      modifies this
      ensures prefLangCookie == Some(value)
      ensures lang == old(lang) && configLanguage == old(configLanguage)
    {
      prefLangCookie := None;
      prefLangCookie := Some(value);
    }

    /**
     * `_set_new_lang`: writes the cookie, stores the code and sets the `language`
     * config item to its display name; that lookup is unchecked in the source,
     * so the item becomes null when `newLang` is not a registry key.
     */
    method SetNewLang(newLang: string)
      modifies this
      ensures lang == newLang && Committed()
    {
      SetNewCookie(newLang);
      lang := newLang;
      configLanguage := Get(supportedLangs, lang);
    }

    /**
     * `determine_new_lang`: asks the four sources in priority order, keeps the
     * first supported candidate and commits it, reporting whether any was found.
     */
    method DetermineNewLang(uri: Option<string>, cookie: Option<string>, header: Option<string>)
      returns (outcome: Resolution)
      requires Valid()
      modifies this
      ensures Valid() && Committed()
      ensures lang == Resolve(supportedLangs, old(configLanguage), uri, cookie, header)
      ensures outcome.NoCandidateSupported? <==> lang == ""
      ensures outcome.Resolved? ==> outcome.code == lang && configLanguage == Some(outcome.name)
    {
      var potentialLangs := [KeyOf(uri), KeyOf(cookie), HeaderCandidate(header), GetDefaultLang()];
      var newLang := FindSupportedLang(potentialLangs);
      SetNewLang(newLang);
      if newLang == "" {
        outcome := NoCandidateSupported;
      } else {
        outcome := Resolved(lang, configLanguage.value);
      }
    }
  }
}
