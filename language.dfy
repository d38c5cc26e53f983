/**
 * The interface language of the web client: the four supported languages,
 * the choice made when the application starts, the provider that switches
 * languages and remembers the choice in the browser's local storage, and the
 * primary subtag of a language tag.
 */
module Language {
  import opened Wrappers
  import opened Text

  predicate Supported(lang: string) {
    lang == "en" || lang == "es" || lang == "fr" || lang == "pt"
  }

  const DefaultLanguage := "en"

  /** The local-storage key the choice is remembered under. */
  const StorageKey := "i18nextLng"

  /** `tag.split('-')[0]`: the primary language subtag. */
  function PrimaryTag(tag: string): (r: string)
    ensures '-' !in r
    ensures r <= tag
    ensures '-' !in tag ==> r == tag
  {
    SplitFirst(tag, '-');
    if '-' in tag then Split(tag, '-')[0]
    else SplitWithout(tag, '-'); Split(tag, '-')[0]
  }

  /** Taking the primary subtag twice changes nothing more. */
  lemma PrimaryTagIdempotent(tag: string)
    ensures PrimaryTag(PrimaryTag(tag)) == PrimaryTag(tag)
  {
  }

  /** The primary subtag of a tag with a region is the part before the first '-'. */
  lemma PrimaryTagOfRegion(lang: string, region: string)
    requires '-' !in lang
    ensures PrimaryTag(lang + "-" + region) == lang
  {
    SplitAtFirst(lang, '-', region);
    assert lang + "-" + region == lang + ['-'] + region;
  }

  /**
   * The language chosen at start-up: a supported saved choice first, then the
   * browser language's primary subtag when supported, and English otherwise.
   */
  function InitialLanguage(saved: Option<string>, browserLanguage: string): (r: string)
    ensures Supported(r)
    ensures saved.Some? && Supported(saved.value) ==> r == saved.value
    ensures !(saved.Some? && Supported(saved.value)) && Supported(PrimaryTag(browserLanguage)) ==>
      r == PrimaryTag(browserLanguage)
    ensures !(saved.Some? && Supported(saved.value)) && !Supported(PrimaryTag(browserLanguage)) ==>
      r == DefaultLanguage
  {
    if saved.Some? && saved.value != "" && Supported(saved.value) then saved.value
    else if Supported(PrimaryTag(browserLanguage)) then PrimaryTag(browserLanguage)
    else DefaultLanguage
  }

  /** A regional browser language of a supported language is honoured when nothing is saved. */
  lemma RegionalBrowserLanguage(lang: string, region: string)
    requires Supported(lang)
    ensures InitialLanguage(None, lang + "-" + region) == lang
  {
    PrimaryTagOfRegion(lang, region);
  }

  /** The provider's language, the translation library's language and the browser's local storage. */
  class LanguageProvider {
    var language: string
    var libraryLanguage: string
    var storage: map<string, string>

    /** Start-up: the language is chosen from local storage and the browser language. */
    constructor(storage: map<string, string>, libraryLanguage: string, browserLanguage: string)
      ensures language == InitialLanguage(if StorageKey in storage then Some(storage[StorageKey]) else None, browserLanguage)
      ensures Supported(language)
      ensures this.storage == storage && this.libraryLanguage == libraryLanguage
    {
      this.language := InitialLanguage(if StorageKey in storage then Some(storage[StorageKey]) else None, browserLanguage);
      this.libraryLanguage := libraryLanguage;
      this.storage := storage;
    }

    /** After mounting, the library is switched to the provider's language if they differ. */
    method Synchronize()
      modifies this`libraryLanguage
      ensures libraryLanguage == language
    {
      if libraryLanguage != language {
        libraryLanguage := language;
      }
    }

    /** Switching language updates the library, the provider and the remembered choice. */
    method SetLanguage(lang: string)
      requires Supported(lang)
      modifies this
      ensures language == lang && libraryLanguage == lang
      ensures storage == old(storage)[StorageKey := lang]
      ensures PrimaryTag(libraryLanguage) == lang
    {
      libraryLanguage := lang;
      language := lang;
      storage := storage[StorageKey := lang];
    }
  }

  /** A choice made with the provider is the one picked at the next start, whatever the browser language. */
  lemma RememberedChoiceWins(storage: map<string, string>, lang: string, browserLanguage: string)
    requires Supported(lang)
    ensures InitialLanguage(Some(storage[StorageKey := lang][StorageKey]), browserLanguage) == lang
  {
  }
}
