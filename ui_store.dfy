/** The interface state store (lib/stores/uiStore.ts): the current language, chosen at
    start-up from the saved preference or the browser language and saved again on every
    change, and the two open/closed flags of the mobile menu and the search box. The
    browser environment is a parameter. */
module UIStore {

  import opened Wrappers
  import opened Types
  import Text

  const English: Language := Language(En, "English", Ltr)
  const Dhivehi: Language := Language(Dv, "ދިވެހި", Rtl)

  /** `LANGUAGES[code]`. */
  function LanguageOf(code: LanguageCode): (l: Language)
    ensures l.code == code
    ensures l.direction == (if code == En then Ltr else Rtl)
  {
    assert Dhivehi.code == Dv;
    if code == En then English else Dhivehi
  }

  /** The storage key of the preference. */
  const LanguageStorageKey: string := "newsapp-language"

  /** The text a language code is saved as. */
  function CodeText(code: LanguageCode): string
  {
    if code == En then "en" else "dv"
  }

  /** The outcome of a read that may throw. */
  datatype Read<T> = Value(value: T) | Failed

  /** What start-up can see: whether there is a window at all, the stored preference
      (absent or any text), and `navigator.language`. */
  datatype Environment = Environment(
    hasWindow: bool,
    savedLanguage: Read<Option<string>>,
    browserLanguage: Read<string>)

  /** `browserLang.startsWith('dv')` after lower-casing. */
  predicate BrowserPrefersDhivehi(browserLanguage: string)
  {
    var lower := Text.Lower(browserLanguage);
    |lower| >= 2 && lower[..2] == "dv"
  }

  /** `getInitialLanguage()`: English without a window; otherwise a saved `dv` or `en`
      wins; otherwise a browser language starting with `dv` in any case gives Dhivehi;
      everything else, read failures included, gives English. */
  function InitialLanguage(env: Environment): (l: Language)
    ensures !env.hasWindow ==> l == English
    ensures env.hasWindow && env.savedLanguage == Value(Some("dv")) ==> l == Dhivehi
    ensures env.hasWindow && env.savedLanguage == Value(Some("en")) ==> l == English
    ensures env.hasWindow && env.savedLanguage != Value(Some("dv")) && env.savedLanguage != Value(Some("en")) ==>
      (l == Dhivehi <==> env.browserLanguage.Value? && BrowserPrefersDhivehi(env.browserLanguage.value))
    ensures l == English || l == Dhivehi
  {
    if !env.hasWindow then English
    else if env.savedLanguage == Value(Some("dv")) then Dhivehi
    else if env.savedLanguage == Value(Some("en")) then English
    else if env.browserLanguage.Value? && BrowserPrefersDhivehi(env.browserLanguage.value) then Dhivehi
    else English
  }

  /** A saved preference is read back at the next start: the language saved is the one
      chosen, whatever the browser says. */
  lemma SavedPreferenceWins(code: LanguageCode, browserLanguage: Read<string>)
    ensures InitialLanguage(Environment(true, Value(Some(CodeText(code))), browserLanguage)) == LanguageOf(code)
  {
  }

  /** The browser rule ignores case: `DV-MV` and `dv-mv` both give Dhivehi. */
  lemma BrowserRuleIgnoresCase(browserLanguage: string)
    requires |browserLanguage| >= 2 && browserLanguage[0] in "dD" && browserLanguage[1] in "vV"
    ensures InitialLanguage(Environment(true, Value(None), Value(browserLanguage))) == Dhivehi
  {
    var lower := Text.Lower(browserLanguage);
    assert lower[0] == Text.LowerChar(browserLanguage[0]);
    assert lower[1] == Text.LowerChar(browserLanguage[1]);
    assert lower[..2] == "dv";
  }

  class UIStore {
    var language: Language
    var mobileMenuOpen: bool
    var searchOpen: bool
    /** The stored preference under `LanguageStorageKey`. */
    var savedLanguage: Option<string>
    const hasWindow: bool

    /** The store as created: the start-up language, both panels closed. */
    constructor(env: Environment)
      ensures language == InitialLanguage(env)
      ensures !mobileMenuOpen && !searchOpen
      ensures hasWindow == env.hasWindow
      ensures savedLanguage == if env.savedLanguage.Value? then env.savedLanguage.value else None
    {
      language := InitialLanguage(env);
      mobileMenuOpen := false;
      searchOpen := false;
      hasWindow := env.hasWindow;
      savedLanguage := if env.savedLanguage.Value? then env.savedLanguage.value else None;
    }

    /** `setLanguage(language)`: the language is set and, when there is a window, exactly
        its code is saved. */
    method SetLanguage(l: Language)
      modifies this
      ensures language == l
      ensures savedLanguage == if hasWindow then Some(CodeText(l.code)) else old(savedLanguage)
      ensures mobileMenuOpen == old(mobileMenuOpen) && searchOpen == old(searchOpen)
    {
      language := l;
      if hasWindow {
        savedLanguage := Some(CodeText(l.code));
      }
    }

    /** `toggleMobileMenu()`. */
    method ToggleMobileMenu()
      modifies this
      ensures mobileMenuOpen == !old(mobileMenuOpen)
      ensures searchOpen == old(searchOpen) && language == old(language) && savedLanguage == old(savedLanguage)
    {
      mobileMenuOpen := !mobileMenuOpen;
    }

    /** `toggleSearch()`. */
    method ToggleSearch()
      modifies this
      ensures searchOpen == !old(searchOpen)
      ensures mobileMenuOpen == old(mobileMenuOpen) && language == old(language) && savedLanguage == old(savedLanguage)
    {
      searchOpen := !searchOpen;
    }

    /** `closeMobileMenu()`. */
    method CloseMobileMenu()
      modifies this
      ensures !mobileMenuOpen
      ensures searchOpen == old(searchOpen) && language == old(language) && savedLanguage == old(savedLanguage)
    {
      mobileMenuOpen := false;
    }

    /** `closeSearch()`. */
    method CloseSearch()
      modifies this
      ensures !searchOpen
      ensures mobileMenuOpen == old(mobileMenuOpen) && language == old(language) && savedLanguage == old(savedLanguage)
    {
      searchOpen := false;
    }
  }

  /** Two toggles of either panel leave the store as it was, and a language change is
      picked up by the next start. */
  method ToggleTwiceAndReload(store: UIStore, l: Language, browserLanguage: Read<string>)
    requires store.hasWindow
    modifies store
    ensures store.mobileMenuOpen == old(store.mobileMenuOpen) && store.searchOpen == old(store.searchOpen)
    ensures InitialLanguage(Environment(true, Value(store.savedLanguage), browserLanguage)) == LanguageOf(l.code)
  {
    store.ToggleMobileMenu();
    store.ToggleMobileMenu();
    store.ToggleSearch();
    store.ToggleSearch();
    store.SetLanguage(l);
    SavedPreferenceWins(l.code, browserLanguage);
  }
}
