/** What the resolver promises, stated over the functions of `Urilang`. */
module UrilangProperties {
  import opened Wrappers
  import opened PhpArray
  import opened Urilang

  // ---------------------------------------------------------------------------
  // find_supported_lang
  // ---------------------------------------------------------------------------

  /**
   * The result is "" exactly when no element is accepted; otherwise it is the
   * accepted element with the lowest index.
   */
  lemma {:induction false} FirstSupportedIsFirstMatch(reg: Assoc, langs: seq<string>)
    ensures FirstSupported(reg, langs) == "" <==> forall i :: 0 <= i < |langs| ==> !Accepted(reg, langs[i])
    ensures FirstSupported(reg, langs) != "" ==>
      exists i :: 0 <= i < |langs| && langs[i] == FirstSupported(reg, langs) && Accepted(reg, langs[i])
        && forall j :: 0 <= j < i ==> !Accepted(reg, langs[j])
  {
    if langs != [] {
      FirstSupportedIsFirstMatch(reg, langs[1..]);
      assert forall i :: 0 <= i < |langs[1..]| ==> langs[1..][i] == langs[i + 1];
      if !Accepted(reg, langs[0]) && FirstSupported(reg, langs) != "" {
        var i :| 0 <= i < |langs[1..]| && langs[1..][i] == FirstSupported(reg, langs[1..])
          && Accepted(reg, langs[1..][i]) && forall j :: 0 <= j < i ==> !Accepted(reg, langs[1..][j]);
        assert langs[i + 1] == FirstSupported(reg, langs);
        assert forall j :: 0 <= j < i + 1 ==> !Accepted(reg, langs[j]) by {
          forall j | 0 <= j < i + 1 ensures !Accepted(reg, langs[j]) {
            if j > 0 { assert langs[j] == langs[1..][j - 1]; }
          }
        }
      }
    }
  }

  /** Once a match is recorded, later elements never replace it. */
  lemma {:induction false} FirstSupportedAppend(reg: Assoc, a: seq<string>, b: seq<string>)
    ensures FirstSupported(reg, a + b)
      == if FirstSupported(reg, a) != "" then FirstSupported(reg, a) else FirstSupported(reg, b)
  {
    if a == [] {
      assert a + b == b;
    } else {
      assert (a + b)[0] == a[0];
      assert (a + b)[1..] == a[1..] + b;
      FirstSupportedAppend(reg, a[1..], b);
    }
  }

  // ---------------------------------------------------------------------------
  // get_default_lang
  // ---------------------------------------------------------------------------

  /**
   * With distinct display names, the reverse lookup inverts the registry: the
   * display name of a supported code maps back to that code.
   */
  lemma DefaultLangInvertsGet(reg: Assoc, code: string)
    requires UniqueKeys(reg) && UniqueValues(reg) && HasKey(reg, code)
    ensures DefaultLang(reg, Get(reg, code)) == code
  {
  }

  // ---------------------------------------------------------------------------
  // get_lang_by_request_header
  // ---------------------------------------------------------------------------

  /** Lower-casing then cutting to two characters is cutting then lower-casing. */
  lemma HeaderCandidateTruncatesFirst(header: Option<string>)
    ensures var raw := KeyOf(header);
      HeaderCandidate(header) == Lower(raw[..if |raw| < 2 then |raw| else 2])
  {
  }

  // ---------------------------------------------------------------------------
  // determine_new_lang
  // ---------------------------------------------------------------------------

  /** The resolved language is "" or an accepted candidate, taken in priority order. */
  lemma ResolveIsFirstAcceptedCandidate(reg: Assoc, language: Option<string>,
                                        uri: Option<string>, cookie: Option<string>, header: Option<string>)
    ensures var cands := PotentialLangs(reg, language, uri, cookie, header);
      var r := Resolve(reg, language, uri, cookie, header);
      && (r == "" <==> forall i :: 0 <= i < 4 ==> !Accepted(reg, cands[i]))
      && (r != "" ==> exists i :: (0 <= i < 4 && cands[i] == r && Accepted(reg, r)
            && forall j :: 0 <= j < i ==> !Accepted(reg, cands[j])))
  {
    FirstSupportedIsFirstMatch(reg, PotentialLangs(reg, language, uri, cookie, header));
  }

  /** A supported URI segment wins over every other source. */
  lemma UriWins(reg: Assoc, language: Option<string>, uri: string, cookie: Option<string>, header: Option<string>)
    requires Accepted(reg, uri)
    ensures Resolve(reg, language, Some(uri), cookie, header) == uri
  {
  }

  /** With no usable URI segment, a supported cookie wins over the header and the default. */
  lemma CookieWinsWithoutUri(reg: Assoc, language: Option<string>,
                             uri: Option<string>, cookie: string, header: Option<string>)
    requires !Accepted(reg, KeyOf(uri)) && Accepted(reg, cookie)
    ensures Resolve(reg, language, uri, Some(cookie), header) == cookie
  {
    FirstSupportedIsFirstMatch(reg, PotentialLangs(reg, language, uri, Some(cookie), header));
  }

  /** The header is consulted only when neither URI nor cookie is usable. */
  lemma HeaderWinsWithoutUriOrCookie(reg: Assoc, language: Option<string>,
                                     uri: Option<string>, cookie: Option<string>, header: Option<string>)
    requires !Accepted(reg, KeyOf(uri)) && !Accepted(reg, KeyOf(cookie))
    requires Accepted(reg, HeaderCandidate(header))
    ensures Resolve(reg, language, uri, cookie, header) == HeaderCandidate(header)
  {
    var c := PotentialLangs(reg, language, uri, cookie, header);
    assert c == [c[0], c[1]] + [c[2], c[3]];
    FirstSupportedAppend(reg, [c[0], c[1]], [c[2], c[3]]);
    assert [c[0], c[1]][1..] == [c[1]];
  }

  /**
   * The unchecked lookup after resolution cannot fail when the registry holds
   * "en" and no empty code: the default candidate is then always accepted.
   */
  lemma ResolvesWhenEnglishSupported(reg: Assoc, language: Option<string>,
                                     uri: Option<string>, cookie: Option<string>, header: Option<string>)
    requires HasKey(reg, "en") && !HasKey(reg, "")
    ensures Accepted(reg, Resolve(reg, language, uri, cookie, header))
  {
    var cands := PotentialLangs(reg, language, uri, cookie, header);
    assert Accepted(reg, cands[3]);
    FirstSupportedIsFirstMatch(reg, cands);
  }

  /**
   * Running the resolution again with the same sources, after the first run
   * wrote its display name back to the `language` item, picks the same code,
   * provided no two registry entries share a display name.
   */
  lemma ResolveIdempotent(reg: Assoc, language: Option<string>,
                          uri: Option<string>, cookie: Option<string>, header: Option<string>)
    requires UniqueKeys(reg) && UniqueValues(reg)
    ensures var first := Resolve(reg, language, uri, cookie, header);
      Resolve(reg, Get(reg, first), uri, cookie, header) == first
  {
    var first := Resolve(reg, language, uri, cookie, header);
    var d1 := DefaultLang(reg, language);
    var d2 := DefaultLang(reg, Get(reg, first));
    var early := [KeyOf(uri), KeyOf(cookie), HeaderCandidate(header)];
    assert PotentialLangs(reg, language, uri, cookie, header) == early + [d1];
    assert PotentialLangs(reg, Get(reg, first), uri, cookie, header) == early + [d2];
    FirstSupportedAppend(reg, early, [d1]);
    FirstSupportedAppend(reg, early, [d2]);
    if FirstSupported(reg, early) == "" {
      if first != "" {
        DefaultLangInvertsGet(reg, first);
      } else if HasKey(reg, "") {
        DefaultLangInvertsGet(reg, "");
      } else {
        assert d2 == "en";
      }
    }
  }

  /**
   * Without distinct display names the reverse lookup can land on another code
   * with the same name, so a second run picks a different language.
   */
  lemma SharedDisplayNameBreaksIdempotence()
    ensures var reg := [Entry("xx", "english"), Entry("en", "english")];
      && Resolve(reg, Some("klingon"), None, None, None) == "en"
      && Resolve(reg, Get(reg, "en"), None, None, None) == "xx"
  {
  }

  // ---------------------------------------------------------------------------
  // get_lang_array and selected_language
  // ---------------------------------------------------------------------------

  /**
   * `get_lang_array` for a supported language: that language's entry first,
   * then the rest of the registry in its original order.
   */
  lemma LangArrayOrder(reg: Assoc, lang: string)
    requires UniqueKeys(reg) && HasKey(reg, lang)
    ensures exists i :: (0 <= i < |reg| && reg[i].key == lang
      && LangArray(reg, lang) == Some([reg[i]] + reg[..i] + reg[i + 1..]))
  {
    var name := Get(reg, lang).value;
    var i :| 0 <= i < |reg| && reg[i] == Entry(lang, name);
    assert LangArray(reg, lang) == Some(Union([reg[i]], reg));
    UnionSingle(reg[i], reg, i);
  }

  /** `selected_language(true)` is the leading entry of `get_lang_array`. */
  lemma SelectedLanguageLeadsLangArray(reg: Assoc, lang: string)
    requires HasKey(reg, lang)
    ensures LangArray(reg, lang).Some?
      && SelectedLanguage(reg, lang, true) == Some(Full(LangArray(reg, lang).value[..1]))
  {
  }

  // ---------------------------------------------------------------------------
  // The library's own test cases, on its stub configuration
  // ---------------------------------------------------------------------------

  /** The stub registry: english, french, spanish. */
  function StubRegistry(): (reg: Assoc)
    ensures UniqueKeys(reg) && UniqueValues(reg)
  {
    [Entry("en", "english"), Entry("fr", "french"), Entry("es", "spanish")]
  }

  /**
   * `testGetDefaultLang`: before construction the stub's `language` item "en" is
   * no display name, so "en" is the fallback; after construction the item is
   * "english", and its reverse lookup gives "en" as well.
   */
  lemma StubDefaultLang()
    ensures DefaultLang(StubRegistry(), Some("en")) == "en"
    ensures DefaultLang(StubRegistry(), Some("english")) == "en"
  {
  }

  /** `setUp`: with no source present, construction falls back to "en". */
  lemma StubConstruction()
    ensures Resolve(StubRegistry(), Some("en"), None, None, None) == "en"
  {
  }

  /** `testLangIsSupported` and `testFindSupportedLang`. */
  lemma StubSupported()
    ensures !HasKey(StubRegistry(), "de") && HasKey(StubRegistry(), "fr")
    ensures FirstSupported(StubRegistry(), ["ab", "fr", "es"]) == "fr"
  {
  }

  /** `testDetermineNewLang`: the cookie "es" is taken, then the URI segment "fr" wins over it. */
  lemma StubDetermineNewLang()
    ensures Resolve(StubRegistry(), Some("english"), None, Some("es"), None) == "es"
    ensures Resolve(StubRegistry(), Some("spanish"), Some("fr"), Some("es"), None) == "fr"
  {
  }

  /** `testGetLangArray`, first half: only the header names a supported language. */
  lemma StubHeaderResolution()
    ensures Resolve(StubRegistry(), Some("english"), Some("de"), Some("de"), Some("Fr-CA")) == "fr"
  {
    var lowered := Lower("Fr-CA");
    assert lowered[0] == 'f' && lowered[1] == 'r';
    assert HeaderCandidate(Some("Fr-CA")) == "fr";
    HeaderWinsWithoutUriOrCookie(StubRegistry(), Some("english"), Some("de"), Some("de"), Some("Fr-CA"));
  }

  /** `testGetLangArray`, second half: "fr" leads, then english and spanish. */
  lemma StubLangArray()
    ensures LangArray(StubRegistry(), "fr")
      == Some([Entry("fr", "french"), Entry("en", "english"), Entry("es", "spanish")])
  {
    var reg := StubRegistry();
    var fr := Entry("fr", "french");
    assert reg[1] == fr;
    GetAt(reg, 1);
    MissingSingle(fr, reg, 1);
    assert LangArray(reg, "fr") == Some(Union([fr], reg));
    assert Union([fr], reg) == [fr] + Missing([fr], reg);
    assert reg[..1] + reg[2..] == [Entry("en", "english"), Entry("es", "spanish")];
    assert [fr] + [Entry("en", "english"), Entry("es", "spanish")]
      == [Entry("fr", "french"), Entry("en", "english"), Entry("es", "spanish")];
  }

  /** `testSelectedLanguage`. */
  lemma StubSelectedLanguage()
    ensures SelectedLanguage(StubRegistry(), "en", false) == Some(Code("en"))
    ensures SelectedLanguage(StubRegistry(), "en", true) == Some(Full([Entry("en", "english")]))
  {
  }

  // ---------------------------------------------------------------------------
  // The same, on resolver objects
  // ---------------------------------------------------------------------------

  /**
   * Two `determine_new_lang` passes over the same sources on one resolver
   * commit the same language, when display names are distinct.
   */
  method DetermineTwice(resolver: URILang, uri: Option<string>, cookie: Option<string>, header: Option<string>)
    returns (first: string, second: string)
    requires resolver.Valid() && UniqueValues(resolver.supportedLangs)
    modifies resolver
    ensures first == second == resolver.lang && resolver.Valid() && resolver.Committed()
  {
    var _ := resolver.DetermineNewLang(uri, cookie, header);
    first := resolver.lang;
    ResolveIdempotent(resolver.supportedLangs, old(resolver.configLanguage), uri, cookie, header);
    var _ := resolver.DetermineNewLang(uri, cookie, header);
    second := resolver.lang;
  }

  /** `setUp` then `testSelectedLanguage`, on a resolver object. */
  method StubSelectedLanguageScenario()
  {
    var resolver := new URILang(StubRegistry(), "en", None, None, None);
    StubConstruction();
    assert resolver.lang == "en";
    assert resolver.GetSelectedLanguage(false) == Some(Code("en"));
    assert resolver.GetSelectedLanguage(true) == Some(Full([Entry("en", "english")]));
  }

  /** `setUp` then `testDetermineNewLang`, on a resolver object. */
  method StubDetermineNewLangScenario()
  {
    var resolver := new URILang(StubRegistry(), "en", None, None, None);
    StubConstruction();
    var outcome := resolver.DetermineNewLang(None, Some("es"), None);
    CookieWinsWithoutUri(StubRegistry(), Some("english"), None, "es", None);
    assert outcome == Resolved("es", "spanish");
    outcome := resolver.DetermineNewLang(Some("fr"), Some("es"), None);
    UriWins(StubRegistry(), Some("spanish"), "fr", Some("es"), None);
    assert outcome == Resolved("fr", "french");
  }

  /** `setUp` then `testGetLangArray`, on a resolver object. */
  method StubLangArrayScenario()
  {
    var resolver := new URILang(StubRegistry(), "en", None, None, None);
    StubConstruction();
    var _ := resolver.DetermineNewLang(Some("de"), Some("de"), Some("Fr-CA"));
    StubHeaderResolution();
    StubLangArray();
    assert resolver.GetLangArray()
      == Some([Entry("fr", "french"), Entry("en", "english"), Entry("es", "spanish")]);
  }
}
