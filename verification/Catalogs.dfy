/** Compiling a whole translation catalog, and looking messages up in it. */
module Catalogs {
  import opened Wrappers
  import opened Messages
  import opened Rendering

  /** The raw messages of one locale, and of all locales. */
  type Bundle = map<string, string>
  type Raw = map<string, Bundle>

  type CompiledBundle = map<string, Compiled>
  type Catalog = map<string, CompiledBundle>

  datatype CatalogError = BadMessage(key: string, error: MessageError) | DifferentContract(locale: string, key: string)

  /** Reading a missing key of a Go map gives the empty bundle. */
  function BundleOf(raw: Raw, locale: string): Bundle {
    if locale in raw then raw[locale] else map[]
  }

  ghost predicate Accepted(message: string) {
    exists c :: CompilesTo(message, Ok(c))
  }

  ghost predicate BundleCompilesTo(bundle: Bundle, compiled: CompiledBundle) {
    && compiled.Keys == bundle.Keys
    && forall k :: k in bundle ==> CompilesTo(bundle[k], Ok(compiled[k]))
  }

  /** An accepted message is not also rejected. */
  lemma RejectedIsNotAccepted(message: string, e: MessageError)
    requires CompilesTo(message, Err(e))
    ensures !Accepted(message)
  {
    forall c | CompilesTo(message, Ok(c)) ensures false {
      CompilationIsUnique(message, Ok(c), Err(e));
    }
  }

  /** Visits the messages in any order and stops at the first one that is rejected. */
  method CompileBundle(bundle: Bundle) returns (r: Result<CompiledBundle, CatalogError>)
    ensures r.Ok? <==> forall k :: k in bundle ==> Accepted(bundle[k])
    ensures r.Ok? ==> BundleCompilesTo(bundle, r.value)
    ensures r.Err? ==> r.error.BadMessage? && r.error.key in bundle && CompilesTo(bundle[r.error.key], Err(r.error.error))
  {
    var compiled: CompiledBundle := map[];
    var rest := bundle.Keys;
    while rest != {}
      invariant rest <= bundle.Keys && compiled.Keys == bundle.Keys - rest
      invariant forall k :: k in compiled ==> CompilesTo(bundle[k], Ok(compiled[k]))
    {
      var key :| key in rest;
      var message := CompileMessage(bundle[key]);
      if message.Err? {
        RejectedIsNotAccepted(bundle[key], message.error);
        return Err(BadMessage(key, message.error));
      }
      compiled := compiled[key := message.value];
      rest := rest - {key};
    }
    r := Ok(compiled);
  }

  /** Every key of a locale that the default locale also has carries the same contract. */
  ghost predicate SameContracts(messages: CompiledBundle, defaults: CompiledBundle) {
    forall k :: k in messages && k in defaults ==> SameMessageSignature(messages[k].signature, defaults[k].signature)
  }

  method CheckContracts(locale: string, messages: CompiledBundle, defaults: CompiledBundle) returns (e: Option<CatalogError>)
    ensures e.None? <==> SameContracts(messages, defaults)
    ensures e.Some? ==> e.value.DifferentContract? && e.value.locale == locale && e.value.key in messages && e.value.key in defaults
  {
    var rest := messages.Keys;
    while rest != {}
      invariant rest <= messages.Keys
      invariant forall k :: k in messages && k !in rest && k in defaults ==>
                  SameMessageSignature(messages[k].signature, defaults[k].signature)
    {
      var key :| key in rest;
      if key in defaults && !SameMessageSignature(messages[key].signature, defaults[key].signature) {
        return Some(DifferentContract(locale, key));
      }
      rest := rest - {key};
    }
    e := None;
  }

  ghost predicate LocaleAccepted(raw: Raw, locale: string) {
    forall k :: k in BundleOf(raw, locale) ==> Accepted(BundleOf(raw, locale)[k])
  }

  /** What the catalog promises of a locale: its messages compile, and keep the contracts of the default locale. */
  ghost predicate LocaleConsistent(raw: Raw, locale: string, defaultLocale: string) {
    && LocaleAccepted(raw, locale)
    && forall k :: k in BundleOf(raw, locale) && k in BundleOf(raw, defaultLocale) ==>
         SameContract(BundleOf(raw, locale)[k], BundleOf(raw, defaultLocale)[k])
  }

  ghost predicate Consistent(raw: Raw, languages: seq<string>, defaultLocale: string) {
    LocaleAccepted(raw, defaultLocale) && forall i :: 0 <= i < |languages| ==> LocaleConsistent(raw, languages[i], defaultLocale)
  }

  /** The contracts of compiled bundles are those of their raw messages. */
  lemma ContractsOfRaw(raw: Raw, locale: string, defaultLocale: string, messages: CompiledBundle, defaults: CompiledBundle)
    requires BundleCompilesTo(BundleOf(raw, locale), messages) && BundleCompilesTo(BundleOf(raw, defaultLocale), defaults)
    ensures LocaleAccepted(raw, locale)
    ensures LocaleConsistent(raw, locale, defaultLocale) <==> SameContracts(messages, defaults)
  {
    var bundle, base := BundleOf(raw, locale), BundleOf(raw, defaultLocale);
    forall k | k in bundle && k in base
      ensures SameContract(bundle[k], base[k]) <==> SameMessageSignature(messages[k].signature, defaults[k].signature) {
      SameSignatureIff(messages[k], defaults[k]);
    }
  }

  /** The default locale agrees with itself. */
  lemma DefaultIsConsistent(raw: Raw, defaultLocale: string, defaults: CompiledBundle)
    requires BundleCompilesTo(BundleOf(raw, defaultLocale), defaults)
    ensures LocaleConsistent(raw, defaultLocale, defaultLocale)
  {
    ContractsOfRaw(raw, defaultLocale, defaultLocale, defaults, defaults);
  }

  ghost predicate LocaleCompiled(raw: Raw, catalog: Catalog, locale: string) {
    locale in catalog && BundleCompilesTo(BundleOf(raw, locale), catalog[locale])
  }

  ghost predicate AllCompiled(raw: Raw, catalog: Catalog) {
    forall locale :: locale in catalog.Keys ==> LocaleCompiled(raw, catalog, locale)
  }

  ghost predicate CatalogOf(raw: Raw, languages: seq<string>, defaultLocale: string, catalog: Catalog) {
    && catalog.Keys == {defaultLocale} + (set language | language in languages)
    && AllCompiled(raw, catalog)
  }

  /** Compiles one further locale and compares its contracts with the default locale's. */
  method CompileLanguage(language: string, defaultLocale: string, raw: Raw, defaults: CompiledBundle) returns (r: Result<CompiledBundle, CatalogError>)
    requires BundleCompilesTo(BundleOf(raw, defaultLocale), defaults)
    ensures r.Ok? <==> LocaleConsistent(raw, language, defaultLocale)
    ensures r.Ok? ==> BundleCompilesTo(BundleOf(raw, language), r.value)
  {
    var messages := CompileBundle(BundleOf(raw, language));
    if messages.Err? {
      return Err(messages.error);
    }
    ContractsOfRaw(raw, language, defaultLocale, messages.value, defaults);
    var e := CheckContracts(language, messages.value, defaults);
    if e.Some? {
      return Err(e.value);
    }
    r := Ok(messages.value);
  }

  lemma CompiledOneMore(raw: Raw, catalog: Catalog, language: string, messages: CompiledBundle)
    requires AllCompiled(raw, catalog) && BundleCompilesTo(BundleOf(raw, language), messages)
    ensures AllCompiled(raw, catalog[language := messages])
  {
    var extended := catalog[language := messages];
    forall locale | locale in extended.Keys ensures LocaleCompiled(raw, extended, locale) {
      assert locale != language ==> LocaleCompiled(raw, catalog, locale);
    }
  }

  lemma AgreesWithDefault(raw: Raw, languages: seq<string>, defaultLocale: string, catalog: Catalog, a: string)
    requires Consistent(raw, languages, defaultLocale) && CatalogOf(raw, languages, defaultLocale, catalog)
    requires a in catalog.Keys
    ensures defaultLocale in catalog.Keys && SameContracts(catalog[a], catalog[defaultLocale])
  {
    assert LocaleCompiled(raw, catalog, a) && LocaleCompiled(raw, catalog, defaultLocale);
    assert LocaleConsistent(raw, a, defaultLocale) by {
      if a == defaultLocale {
        DefaultIsConsistent(raw, defaultLocale, catalog[defaultLocale]);
      } else {
        ListedIsConsistent(raw, languages, defaultLocale, a);
      }
    }
    ContractsOfRaw(raw, a, defaultLocale, catalog[a], catalog[defaultLocale]);
  }

  lemma ListedIsConsistent(raw: Raw, languages: seq<string>, defaultLocale: string, a: string)
    requires Consistent(raw, languages, defaultLocale) && a in languages
    ensures LocaleConsistent(raw, a, defaultLocale)
  {
    var i :| 0 <= i < |languages| && languages[i] == a;
    assert LocaleConsistent(raw, languages[i], defaultLocale);
  }

  /** Any two locales that hold a key of the default locale agree on its contract. */
  ghost predicate OneContract(catalog: Catalog, defaultLocale: string) {
    && defaultLocale in catalog
    && forall a, b, k | a in catalog && b in catalog && k in catalog[a] && k in catalog[b] && k in catalog[defaultLocale] ::
         SameContract(catalog[a][k].template, catalog[b][k].template)
  }

  /** The pairwise checks against the default locale make the whole catalog agree. */
  lemma ConsistentHasOneContract(raw: Raw, languages: seq<string>, defaultLocale: string, catalog: Catalog)
    requires Consistent(raw, languages, defaultLocale) && CatalogOf(raw, languages, defaultLocale, catalog)
    ensures OneContract(catalog, defaultLocale)
  {
    assert LocaleCompiled(raw, catalog, defaultLocale);
    forall a, b, k | a in catalog && b in catalog && k in catalog[a] && k in catalog[b] && k in catalog[defaultLocale]
      ensures SameContract(catalog[a][k].template, catalog[b][k].template) {
      AgreesWithDefault(raw, languages, defaultLocale, catalog, a);
      AgreesWithDefault(raw, languages, defaultLocale, catalog, b);
      assert LocaleCompiled(raw, catalog, a) && LocaleCompiled(raw, catalog, b);
      SameSignatureIff(catalog[a][k], catalog[b][k]);
    }
  }

  /**
   Compiles every locale.  Which error is reported may depend on the order in which maps
   are visited; whether there is one does not.
   */
  method CompileCatalog(languages: seq<string>, defaultLocale: string, raw: Raw) returns (r: Result<Catalog, CatalogError>)
    ensures r.Ok? <==> Consistent(raw, languages, defaultLocale)
    ensures r.Ok? ==> CatalogOf(raw, languages, defaultLocale, r.value) && OneContract(r.value, defaultLocale)
  {
    var compiled: Catalog := map[];
    var defaults := CompileBundle(BundleOf(raw, defaultLocale));
    if defaults.Err? {
      return Err(defaults.error);
    }
    CompiledOneMore(raw, compiled, defaultLocale, defaults.value);
    compiled := compiled[defaultLocale := defaults.value];
    DefaultIsConsistent(raw, defaultLocale, defaults.value);
    for i := 0 to |languages|
      invariant compiled.Keys == {defaultLocale} + (set language | language in languages[..i])
      invariant AllCompiled(raw, compiled)
      invariant forall j :: 0 <= j < i ==> LocaleConsistent(raw, languages[j], defaultLocale)
    {
      var language := languages[i];
      assert languages[..i + 1] == languages[..i] + [language];
      if language == defaultLocale {
        continue;
      }
      var messages := CompileLanguage(language, defaultLocale, raw, defaults.value);
      if messages.Err? {
        assert !LocaleConsistent(raw, languages[i], defaultLocale);
        return Err(messages.error);
      }
      CompiledOneMore(raw, compiled, language, messages.value);
      compiled := compiled[language := messages.value];
    }
    assert languages[..|languages|] == languages;
    ConsistentHasOneContract(raw, languages, defaultLocale, compiled);
    r := Ok(compiled);
  }

  /** So, whatever locale a key with verbs is taken from, plain arguments are consumed alike. */
  lemma LocalesFormatAlike(raw: Raw, defaultLocale: string, catalog: Catalog, a: string, b: string, k: string, params: seq<Param>)
    requires OneContract(catalog, defaultLocale) && a in catalog && b in catalog
    requires k in catalog[a] && k in catalog[b] && k in catalog[defaultLocale]
    requires k in BundleOf(raw, a) && CompilesTo(BundleOf(raw, a)[k], Ok(catalog[a][k]))
    requires k in BundleOf(raw, b) && CompilesTo(BundleOf(raw, b)[k], Ok(catalog[b][k]))
    requires catalog[a][k].signature.verbs != "" && PlainParams(params)
    ensures var text, text' := Substitute(BundleOf(raw, a)[k], 0, params), Substitute(BundleOf(raw, b)[k], 0, params);
            && FormatVerbs(text).Some? && FormatVerbs(text) == FormatVerbs(text')
            && Arguments(Pieces(Tokenize(text).value, params, 0)) == Arguments(Pieces(Tokenize(text').value, params, 0))
  {
    SameSignatureIff(catalog[a][k], catalog[b][k]);
    SignatureSoundness(catalog[a][k], catalog[b][k], params);
  }

  // ------------------------------------------------------------ lookup

  /** The message a lookup finds: the locale's own, or else the default locale's. */
  function Find<M>(catalog: map<string, map<string, M>>, locale: string, defaultLocale: string, key: string): Option<M> {
    if locale in catalog && key in catalog[locale] then Some(catalog[locale][key])
    else if defaultLocale in catalog && key in catalog[defaultLocale] then Some(catalog[defaultLocale][key])
    else None
  }

  /** `translate` on the compiled catalog. */
  function Translate(catalog: Catalog, locale: string, defaultLocale: string, key: string, fallback: string,
                     params: seq<Param>, sprintf: Formatter): string {
    match Find(catalog, locale, defaultLocale, key)
    case Some(message) => Rendered(message.template, params, sprintf)
    case None => InjectParams(fallback, params, sprintf)
  }

  /** Which message is translated: the locale's own, the default locale's only where that is missing, else the fallback. */
  lemma TranslateUses(raw: Raw, languages: seq<string>, defaultLocale: string, catalog: Catalog,
                      locale: string, key: string, fallback: string, params: seq<Param>, sprintf: Formatter)
    requires CatalogOf(raw, languages, defaultLocale, catalog) && raw.Keys == catalog.Keys
    ensures var own := locale in raw && key in raw[locale];
            var default := defaultLocale in raw && key in raw[defaultLocale];
            var text := Translate(catalog, locale, defaultLocale, key, fallback, params, sprintf);
            && (own ==> text == Rendered(raw[locale][key], params, sprintf))
            && (!own && default ==> text == Rendered(raw[defaultLocale][key], params, sprintf))
            && (!own && !default ==> text == InjectParams(fallback, params, sprintf))
  {
    FindCompiled(raw, languages, defaultLocale, catalog, locale, key);
  }

  /** The naive translator: looks the raw message up and injects the arguments. */
  function NaiveTranslate(raw: Raw, locale: string, defaultLocale: string, key: string, fallback: string,
                          params: seq<Param>, sprintf: Formatter): string {
    match Find(raw, locale, defaultLocale, key)
    case Some(message) => InjectParams(message, params, sprintf)
    case None => InjectParams(fallback, params, sprintf)
  }

  lemma FindCompiled(raw: Raw, languages: seq<string>, defaultLocale: string, catalog: Catalog, locale: string, key: string)
    requires CatalogOf(raw, languages, defaultLocale, catalog) && raw.Keys == catalog.Keys
    ensures match Find(catalog, locale, defaultLocale, key)
            case Some(c) => Find(raw, locale, defaultLocale, key) == Some(c.template)
            case None => Find(raw, locale, defaultLocale, key) == None
  {
    forall l | l in catalog.Keys ensures LocaleCompiled(raw, catalog, l) { }
    assert forall l :: l in catalog <==> l in raw;
    assert locale in catalog ==> LocaleCompiled(raw, catalog, locale) && BundleOf(raw, locale) == raw[locale];
    assert defaultLocale in catalog ==> LocaleCompiled(raw, catalog, defaultLocale) && BundleOf(raw, defaultLocale) == raw[defaultLocale];
  }

  /**
   The compiled catalog translates like the naive one, for every fmt.Sprintf, exactly when
   the arguments bring no verb into the message found.
   */
  lemma TranslateIsNaive(raw: Raw, languages: seq<string>, defaultLocale: string, catalog: Catalog,
                         locale: string, key: string, fallback: string, params: seq<Param>)
    requires CatalogOf(raw, languages, defaultLocale, catalog) && raw.Keys == catalog.Keys
    ensures (forall sprintf: Formatter :: Translate(catalog, locale, defaultLocale, key, fallback, params, sprintf) ==
                                          NaiveTranslate(raw, locale, defaultLocale, key, fallback, params, sprintf))
            <==> match Find(raw, locale, defaultLocale, key)
                 case Some(message) => NoVerbAppears(message, params)
                 case None => true
  {
    FindCompiled(raw, languages, defaultLocale, catalog, locale, key);
    match Find(raw, locale, defaultLocale, key)
    case None =>
    case Some(message) =>
      RenderedIsInjected(message, params);
      forall sprintf: Formatter
        ensures Translate(catalog, locale, defaultLocale, key, fallback, params, sprintf) == Rendered(message, params, sprintf)
        ensures NaiveTranslate(raw, locale, defaultLocale, key, fallback, params, sprintf) == InjectParams(message, params, sprintf) { }
      if sprintf: Formatter :| Rendered(message, params, sprintf) != InjectParams(message, params, sprintf) {
        assert Translate(catalog, locale, defaultLocale, key, fallback, params, sprintf) !=
               NaiveTranslate(raw, locale, defaultLocale, key, fallback, params, sprintf);
      }
  }
}
