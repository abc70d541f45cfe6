/** The interface language chosen at start-up (frontend/src/i18n.ts). */
module I18n {
  import opened Common
  import Text

  /** The languages with translations, in the order i18n.ts lists them. */
  const Supported: seq<string> := ["en", "zh-TW", "zh-CN"]

  /** `fallbackLng`. */
  const Fallback: string := "en"

  /** `getSavedLanguage`: the language stored in local storage when it is a
      supported one; else a Chinese browser language picks traditional
      (Taiwan, Hong Kong) or simplified Chinese; else English. */
  function SavedLanguage(saved: Option<string>, browserLang: string): (r: string)
    ensures r in Supported
    ensures saved.Some? && saved.value in Supported ==> r == saved.value
  {
    if saved.Some? && saved.value != "" && saved.value in Supported then saved.value
    else if Text.StartsWith(browserLang, "zh") then
      (if Text.Contains(browserLang, "TW") || Text.Contains(browserLang, "HK") then "zh-TW" else "zh-CN")
    else "en"
  }

  /** Without a usable saved choice, the browser language decides: Chinese
      browsers get Chinese, with the traditional script exactly for Taiwan
      and Hong Kong, and every other browser gets English. */
  lemma BrowserDecides(saved: Option<string>, browserLang: string)
    requires saved.None? || saved.value !in Supported
    ensures var r := SavedLanguage(saved, browserLang);
            && (r == "en" <==> !Text.StartsWith(browserLang, "zh"))
            && (r == "zh-TW" <==> Text.StartsWith(browserLang, "zh") &&
                                   (Text.Contains(browserLang, "TW") || Text.Contains(browserLang, "HK")))
  {
  }

  /** Storing the chosen language makes the choice stick, whatever the
      browser reports next time. */
  lemma ChoiceSticks(saved: Option<string>, browserLang: string, laterBrowserLang: string)
    ensures var r := SavedLanguage(saved, browserLang);
            SavedLanguage(Some(r), laterBrowserLang) == r
  {
  }

  lemma FallbackSupported()
    ensures Fallback in Supported && Fallback == Supported[0]
  {
  }
}
