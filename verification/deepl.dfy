/** `translateDeepL` (backend/server.js): one call to the translation
    service, with a canned greeting in the target language when the call
    fails. The service itself is a parameter: a function from (text, source
    language, target language) to a translation, or None when the request
    throws. */
module DeepL {
  import opened Wrappers

  type Translator = (string, string, string) -> Option<string>

  /** The canned replies, by target language code. */
  const Fallbacks: map<string, string> := map[
    "ES" := "¡Hola! ¿Cómo estás?",
    "HE" := "שלום! מה שלומך?",
    "RU" := "Привет! Как дела?",
    "EN" := "Hello! How are you?"
  ]

  /** Used for every target language without a canned reply. */
  const DefaultFallback: string := "Hello! Nice to practice."

  /** `fallbacks[targetLang] || 'Hello! Nice to practice.'`. Every canned
      reply is a non-empty (truthy) string, so the default is used exactly
      for the languages that have none. */
  function FallbackFor(targetLang: string): (r: string)
    ensures r != []
    ensures r == DefaultFallback <==> targetLang !in Fallbacks
    ensures targetLang in Fallbacks ==> r == Fallbacks[targetLang]
  {
    if targetLang in Fallbacks && Fallbacks[targetLang] != "" then Fallbacks[targetLang]
    else DefaultFallback
  }

  /** Only an English target yields the English greeting; in particular a
      failed translation of the user's text into English always yields it. */
  lemma EnglishGreetingOnlyForEnglish(targetLang: string)
    ensures FallbackFor(targetLang) == "Hello! How are you?" <==> targetLang == "EN"
  {
  }

  /** The translated text, or the fallback for the target language. */
  function Translate(service: Translator, text: string, source: string, target: string): (r: string)
    ensures service(text, source, target).None? ==> r == FallbackFor(target)
    ensures service(text, source, target).Some? ==> r == service(text, source, target).value
    ensures service(text, source, target).None? ==>
      r != [] && (r == DefaultFallback <==> target !in Fallbacks)
    ensures r == [] ==> service(text, source, target) == Some([])
  {
    match service(text, source, target)
    case Some(t) => t
    case None => FallbackFor(target)
  }

  /** A failure cannot be told apart from a translation that happens to
      equal the canned reply: the caller only ever sees a string. */
  lemma FailureLooksLikeFallbackTranslation(failing: Translator, echoing: Translator,
                                            text: string, source: string, target: string)
    requires failing(text, source, target).None?
    requires echoing(text, source, target) == Some(FallbackFor(target))
    ensures Translate(failing, text, source, target) == Translate(echoing, text, source, target)
  {
  }
}
