# URILang language resolver, modelled in Dafny

The CodeIgniter `URILang` library picks the active language of a request. It asks four
candidate sources in a fixed priority order:

1. the first URI segment;
2. the `pref_lang` cookie;
3. the Accept-Language header, lower-cased and cut to two characters;
4. the configured default, which is the code whose display name is the `language` config item, falling back to `"en"`.

It keeps the first candidate that is a key of the `supported_languages` registry and stores
it in `_lang`. It then writes it to the `pref_lang` cookie and sets the `language` config
item to that code's display name. It also answers queries about the result:
`lang_is_supported`, `get_lang_array` and `selected_language`.

Files:

- `wrappers.dfy`: `Option`. `None` stands for PHP `null`.
- `php_array.dfy`: PHP arrays with string keys and values, as an ordered list of entries. It
  defines the built-ins the library uses: indexing (`Get`), `isset` (`HasKey`), strict
  `in_array` (`InArray`), strict `array_search` (`Search`) and the array union `+` (`Union`).
- `urilang.dfy`: the candidate functions, the resolution as a function (`Resolve`), the query
  functions, and the class `URILang`. The class has the fields `supportedLangs`, `lang`,
  `configLanguage` and `prefLangCookie`. Its methods do what the source's methods do: the
  constructor, `FindSupportedLang` (the `foreach` loop), `SetNewCookie`, `SetNewLang` and
  `DetermineNewLang`. Its functions `LangIsSupported`, `GetDefaultLang`, `GetLangArray` and
  `GetSelectedLanguage` read the object's fields and hand them to the pure functions
  `HasKey`, `DefaultLang`, `LangArray` and `SelectedLanguage`. Each states its result in
  terms of the object's fields.
- `urilang_properties.dfy`: lemmas about the resolution and the queries, the test suite's
  cases on the stub configuration, and client methods that run those cases on a resolver object.

The framework reads of the URI segment, the cookie and the header are parameters of type
`Option<string>`. `None` is the framework's `null` for an absent value. PHP uses a `null`
array key as `""`, so an absent source becomes the candidate `""`.

When no candidate is supported, the source assigns `""` to `_lang` and looks up
`_supported_langs[""]` without checking it (`libraries/Urilang.php:74`). The model keeps
that lookup but returns an `Option`. The `language` config item becomes `None`, which is the
`null` PHP yields for an undefined index. `DetermineNewLang` then also reports
`NoCandidateSupported` instead of `Resolved(code, name)`. For the same reason,
`get_lang_array` and `selected_language(true)` return `None` when `_lang` has no display name.
`ResolvesWhenEnglishSupported` proves that this cannot happen when the registry holds `"en"`
and no empty code.

Two behaviours of the code worth knowing:

- Running the resolution twice with the same sources is not always idempotent. The first pass
  overwrites `language` with the display name of the chosen code. `get_default_lang` then maps
  that name back to the first code carrying it, which may be a different code.
  `ResolveIdempotent` proves idempotence when display names are distinct.
  `SharedDisplayNameBreaksIdempotence` gives a registry where a second pass picks another code.
- `lang_is_supported("")` is `isset($a[""])`: it is true when `""` is a registry key.
  `find_supported_lang` still never returns `""` as a match, because it only stops at a
  non-empty match (`Accepted`).

## Model

| member | source | states |
|---|---|---|
| `PhpArray.Get` | libraries/Urilang.php:74 | the value under a key is absent exactly when no entry has that key; otherwise some entry pairs the key with that value |
| `PhpArray.HasKey` | libraries/Urilang.php:155-158 | `lang_is_supported`: true exactly when some registry entry has the code as its key |
| `PhpArray.Search` | libraries/Urilang.php:168-170 | strict `array_search`: absent exactly when no entry has the value; otherwise the key of the first entry with that value |
| `PhpArray.InArray` | libraries/Urilang.php:168 | strict `in_array`: true exactly when some entry has the value |
| `PhpArray.Union` | libraries/Urilang.php:190 | `$a + $b` starts with `a` unchanged; a key's lookup in the union is its lookup in `a` if `a` holds it, otherwise in `b`; every entry comes from `a` or `b`; the entries after `a` occur in `b` in the same relative order; keys stay unique |
| `PhpArray.UnionSingle` | libraries/Urilang.php:189-190 | `[e] + $a`, where `a` holds `e`'s key at index `i`, is `e` followed by `a` without index `i` |
| `PhpArray.MissingSingle` | libraries/Urilang.php:189-190 | `[e] + $a`, where `a` holds `e`'s key at index `i`, appends `a` without index `i` and keeps the original order |
| `Urilang.KeyOf` | libraries/Urilang.php:110 | an absent source (PHP `null`) is used as the key "", a present one as itself |
| `Urilang.LowerChar` | libraries/Urilang.php:146 | `strtolower` on one ASCII character: the result is never upper-case, an upper-case letter maps to the same letter in lower case, anything else is unchanged |
| `Urilang.Lower` | libraries/Urilang.php:146 | `strtolower` keeps the length and lowers each character in place |
| `Urilang.HeaderCandidate` | libraries/Urilang.php:144-147 | the header candidate has length min(2, header length), is a prefix of the lower-cased header, and holds no upper-case ASCII letter; an absent header gives "" |
| `UrilangProperties.HeaderCandidateTruncatesFirst` | libraries/Urilang.php:146 | lower-casing then cutting to two characters equals cutting then lower-casing |
| `Urilang.Accepted` | libraries/Urilang.php:110 | the loop takes a candidate exactly when it is non-empty and some registry entry has it as its key |
| `Urilang.FirstSupported` | libraries/Urilang.php:104-117 | the scan's result is "" or a non-empty registry key taken from the input |
| `Urilang.URILang.FindSupportedLang` | libraries/Urilang.php:104-117 | the `foreach` loop returns `FirstSupported` of its input, so "" or a supported element of the input |
| `UrilangProperties.FirstSupportedIsFirstMatch` | libraries/Urilang.php:106-116 | the result is "" exactly when no element is accepted; otherwise it is the accepted element with the lowest index |
| `UrilangProperties.FirstSupportedAppend` | libraries/Urilang.php:108-114 | once a match is recorded, later elements never replace it: the scan of `a + b` is the scan of `a` if that found a match, else the scan of `b` |
| `Urilang.DefaultLang` | libraries/Urilang.php:165-179 | if the configured display name is a registry value, the result is the key of the first entry with that value; otherwise "en", whether or not "en" is supported; so always "en" or a registry key |
| `UrilangProperties.DefaultLangInvertsGet` | libraries/Urilang.php:165-179 | with distinct display names, mapping a supported code's display name back gives that code |
| `Urilang.PotentialLangs` | libraries/Urilang.php:87-92 | four candidates in priority order: URI segment, cookie, a header candidate of at most two non-upper-case characters, and a default that is "en" or a registry key |
| `Urilang.Resolve` | libraries/Urilang.php:87-94 | the chosen code is "" or an accepted code taken from the candidate list |
| `Urilang.LangArray` | libraries/Urilang.php:187-191 | `get_lang_array` is absent exactly when `_lang` is not a key; otherwise it starts with `_lang` and its display name, agrees with the registry on every key, and keeps keys unique |
| `UrilangProperties.LangArrayOrder` | libraries/Urilang.php:187-191 | for a supported `_lang` at registry index `i`: the array is `reg[i]`, then the registry without index `i`, in order |
| `Urilang.SelectedLanguage` | libraries/Urilang.php:198-209 | `selected_language(false)` is the bare code `_lang`; `selected_language(true)` is the one-entry array `{_lang => name}`, absent exactly when `_lang` is not a key |
| `UrilangProperties.SelectedLanguageLeadsLangArray` | libraries/Urilang.php:189-200 | `selected_language(true)` is the first entry of `get_lang_array` |
| `Urilang.URILang.LangIsSupported` | libraries/Urilang.php:155-158 | true exactly when some entry of the object's registry has the code as its key |
| `Urilang.URILang.GetDefaultLang` | libraries/Urilang.php:165-179 | from the object's current `language` item: the key of the first entry with that display name, else "en" |
| `Urilang.URILang.GetLangArray` | libraries/Urilang.php:187-191 | absent exactly when `_lang` is not supported; otherwise it starts with `_lang` and agrees with the registry on every key |
| `Urilang.URILang.GetSelectedLanguage` | libraries/Urilang.php:198-209 | the bare `_lang`, or `{_lang => name}` with the registry's display name, absent exactly when `_lang` is not supported |
| `Urilang.URILang.constructor` | libraries/Urilang.php:34-46 | construction loads the registry and runs one resolution pass: `_lang` is the resolution of the four sources, and the config item and cookie agree with it |
| `Urilang.URILang.SetNewCookie` | libraries/Urilang.php:53-61 | the last written `pref_lang` cookie holds the value; `_lang` and the config item are unchanged |
| `Urilang.URILang.SetNewLang` | libraries/Urilang.php:68-75 | `_lang` is the new code, the cookie holds it, and the `language` item is its registry display name (null when it is not a key) |
| `Urilang.URILang.DetermineNewLang` | libraries/Urilang.php:84-96 | `_lang` is the first accepted of [URI, cookie, header, default], with the default computed from the old `language` item; the item and cookie agree with `_lang`; the outcome is `NoCandidateSupported` exactly when `_lang` is "" |
| `UrilangProperties.ResolveIsFirstAcceptedCandidate` | libraries/Urilang.php:87-94 | the resolved code is "" exactly when none of the four candidates is accepted; otherwise it is the first accepted candidate in priority order |
| `UrilangProperties.UriWins` | libraries/Urilang.php:87-94 | a supported URI segment is chosen, whatever the other sources say |
| `UrilangProperties.CookieWinsWithoutUri` | libraries/Urilang.php:87-94 | with an absent or unsupported URI segment, a supported cookie is chosen |
| `UrilangProperties.HeaderWinsWithoutUriOrCookie` | libraries/Urilang.php:87-94 | with neither URI nor cookie usable, a supported header candidate is chosen |
| `UrilangProperties.ResolvesWhenEnglishSupported` | libraries/Urilang.php:84-96 | when "en" is a key and "" is not, resolution always finds a supported code, so the lookup at line 74 never misses |
| `UrilangProperties.ResolveIdempotent` | libraries/Urilang.php:84-96 | with distinct display names, a second pass with the same sources, after `language` was rewritten, picks the same code |
| `UrilangProperties.SharedDisplayNameBreaksIdempotence` | libraries/Urilang.php:168-170 | with two codes sharing a display name, a first pass picks "en" and a second pass picks the other code |
| `UrilangProperties.DetermineTwice` | libraries/Urilang.php:84-96 | two `DetermineNewLang` calls on one resolver, with the same sources and distinct display names, commit the same code |
| `UrilangProperties.StubRegistry` | tests/stubs.php:18-22 | the stub registry (english, french, spanish) has unique keys and unique display names |
| `UrilangProperties.StubConstruction` | tests/Urilang_test.php:8-16 | with no source present and `language` set to "en", construction resolves to "en" |
| `UrilangProperties.StubDefaultLang` | tests/Urilang_test.php:18-21 | the stub's initial `language` "en" is not a display name, so the default is the fallback "en"; after construction the item is "english", whose reverse lookup also gives "en" (the case the test runs) |
| `UrilangProperties.StubSupported` | tests/Urilang_test.php:29-39 | "de" is unsupported, "fr" is supported, and `['ab','fr','es']` resolves to "fr" |
| `UrilangProperties.StubDetermineNewLang` | tests/Urilang_test.php:41-50 | cookie "es" alone gives "es"; URI "fr" with cookie "es" gives "fr" |
| `UrilangProperties.StubHeaderResolution` | tests/Urilang_test.php:52-59 | URI and cookie "de" are unsupported, so the header candidate gives "fr". The test mocks the accessor to return "fr"; the model feeds the raw header "Fr-CA" of its own choosing through the lower-case and cut step instead |
| `UrilangProperties.StubLangArray` | tests/Urilang_test.php:61-66 | after resolving to "fr", `get_lang_array` is fr, en, es |
| `UrilangProperties.StubSelectedLanguage` | tests/Urilang_test.php:23-27 | with `_lang` "en", the bare selection is "en" and the full one is `{en => english}` |

## Left out

- The CodeIgniter superobject and the config-file loading (`libraries/Urilang.php:37-41`) are not modelled. The registry and the `language` item are constructor inputs.
- `log_message` (`libraries/Urilang.php:45`) is logging only.
- Cookie transport is I/O and is not modelled: `set_cookie` with its expiry times, `unset($_COOKIE[...])` and `sess_expiration`. Only the value of the last written `pref_lang` cookie is kept.
- How the framework reads the URI segment, the cookie and the header (`uri->segment`, `input->cookie`, `input->server`, `libraries/Urilang.php:124-147`) is not modelled. Their results are parameters. PHPUnit overrides these accessors by mocking; the model passes the values in directly instead.
- PHP's `empty("0")` quirk is not modelled: the loop stops at any non-empty match.
- Loose `in_array` comparison is not modelled: comparisons are exact string equality.
- PHP's conversion of numeric-string keys to integers is not modelled.
- `HeaderCandidate`: `strtolower` is modelled on ASCII letters only; other characters pass through unchanged.
- `HeaderCandidate`: PHP's `substr(..., 0, 2)` counts bytes, while the model counts characters. The two differ on a header that starts with a multi-byte character.
- `LangArray` and `SelectedLanguage`: when `_lang` is not a registry key, PHP returns `[_lang => null] + registry` and `[_lang => null]`. The model returns `None` instead, because an entry's value is a string and cannot be null.
- `DetermineTwice`: `unset($_COOKIE['pref_lang'])` (`libraries/Urilang.php:57`) means a second pass in the same request reads no cookie. Passing "the same sources" twice therefore matches two requests, or a mocked cookie accessor, not two passes in one request.
- The E_NOTICE that PHP raises for the undefined index at line 74 is not modelled. Only its `null` result is.
