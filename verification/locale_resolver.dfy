/**
 `Hello.get_best_locale`: which language the window starts in. The saved
 choice wins when its compiled catalog exists (or when it is the default
 locale); otherwise the system locale is tried in its full form and then by its
 first two characters, and the default locale closes the chain.
 */
module LocaleResolver {
  import opened Wrappers
  import opened PyStr
  import opened Environment

  /** `<locale_path><locale>/LC_MESSAGES/manjaro-hello.mo` */
  function CatalogPath(prefs: Preferences, locale: string): string {
    prefs.localePath + locale + "/LC_MESSAGES/" + App + ".mo"
  }

  predicate HasCatalog(prefs: Preferences, fs: FileSystem, locale: string) {
    fs.IsFile(CatalogPath(prefs, locale))
  }

  /** The system locale as it is returned: every '_' turned into '-'. */
  function Hyphenated(sysLocale: string): string {
    if '_' in sysLocale then ReplaceAll(sysLocale, "_", "-") else sysLocale
  }

  /** `sys_locale[:2]`, the bare language code. */
  function Language(sysLocale: string): string {
    Head(sysLocale, 2)
  }

  /**
   The locale to activate. `sysLocale` is the first item of
   `locale.getdefaultlocale()`; the catalog of the system locale is looked up
   in its underscore form but the hyphen form is returned. An unset saved
   locale is looked up as the catalog directory "None" and, when that exists,
   returned as unset.
   */
  function GetBestLocale(prefs: Preferences, save: SaveRecord, sysLocale: string, fs: FileSystem)
    : (r: Option<string>)
    ensures r.None? ==> save.locale.None? && HasCatalog(prefs, fs, "None")
    ensures r.Some? ==>
              || r.value == prefs.defaultLocale
              || HasCatalog(prefs, fs, r.value)
              || (HasCatalog(prefs, fs, sysLocale) && r.value == Hyphenated(sysLocale))
  {
    if HasCatalog(prefs, fs, FormatArg(save.locale)) then
      save.locale
    else if save.locale == Some(prefs.defaultLocale) then
      Some(prefs.defaultLocale)
    else if HasCatalog(prefs, fs, sysLocale) then
      Some(Hyphenated(sysLocale))
    else if HasCatalog(prefs, fs, Language(sysLocale)) then
      Some(Language(sysLocale))
    else
      Some(prefs.defaultLocale)
  }

  /** Neither the saved catalog exists nor is the saved locale the default. */
  predicate FallsToSystem(prefs: Preferences, save: SaveRecord, fs: FileSystem) {
    !HasCatalog(prefs, fs, FormatArg(save.locale)) && save.locale != Some(prefs.defaultLocale)
  }

  /** A saved locale whose catalog exists is returned unchanged. */
  lemma SavedLocaleWins(prefs: Preferences, save: SaveRecord, sysLocale: string, fs: FileSystem)
    requires save.locale.Some? && HasCatalog(prefs, fs, save.locale.value)
    ensures GetBestLocale(prefs, save, sysLocale, fs) == save.locale
  {
  }

  /** A saved default locale is returned without looking for its catalog. */
  lemma SavedDefaultNeedsNoCatalog(prefs: Preferences, save: SaveRecord, sysLocale: string, fs: FileSystem)
    requires save.locale == Some(prefs.defaultLocale)
    ensures GetBestLocale(prefs, save, sysLocale, fs) == Some(prefs.defaultLocale)
  {
  }

  /** While the saved choice decides, the system locale has no influence. */
  lemma SavedChoiceBeatsSystem(prefs: Preferences, save: SaveRecord, sys1: string, sys2: string, fs: FileSystem)
    requires !FallsToSystem(prefs, save, fs)
    ensures GetBestLocale(prefs, save, sys1, fs) == GetBestLocale(prefs, save, sys2, fs)
  {
  }

  /**
   When the saved choice does not decide and the system locale has a catalog,
   the system locale is returned with each '_' turned into '-' and every other
   character kept in place.
   */
  lemma SystemLocaleHyphenated(prefs: Preferences, save: SaveRecord, sysLocale: string, fs: FileSystem)
    requires FallsToSystem(prefs, save, fs) && HasCatalog(prefs, fs, sysLocale)
    ensures var r := GetBestLocale(prefs, save, sysLocale, fs);
            && r.Some? && |r.value| == |sysLocale| && '_' !in r.value
            && forall i :: 0 <= i < |sysLocale| ==>
                 r.value[i] == if sysLocale[i] == '_' then '-' else sysLocale[i]
  {
    if '_' in sysLocale {
      ReplaceCharRemoves(sysLocale, '_', "-");
      forall i | 0 <= i < |sysLocale|
        ensures |ReplaceAll(sysLocale, "_", "-")| == |sysLocale|
        ensures ReplaceAll(sysLocale, "_", "-")[i] == if sysLocale[i] == '_' then '-' else sysLocale[i]
      {
        HyphenAt(sysLocale, i);
      }
    }
  }

  /** Replacing '_' by '-' changes one character at a time, in place. */
  lemma {:induction false} HyphenAt(s: string, i: nat)
    requires i < |s|
    ensures |ReplaceAll(s, "_", "-")| == |s|
    ensures ReplaceAll(s, "_", "-")[i] == if s[i] == '_' then '-' else s[i]
    decreases |s|
  {
    assert StartsWith(s, "_") <==> s[0] == '_' by { assert s[..1] == [s[0]]; }
    ReplaceCharLength(s, '_', "-");
    if i > 0 {
      HyphenAt(s[1..], i - 1);
    }
  }

  /**
   Without a catalog for the full system locale, its two-letter language code
   is returned when that one has a catalog.
   */
  lemma SystemLanguageFallback(prefs: Preferences, save: SaveRecord, sysLocale: string, fs: FileSystem)
    requires FallsToSystem(prefs, save, fs) && !HasCatalog(prefs, fs, sysLocale)
    requires HasCatalog(prefs, fs, Language(sysLocale))
    ensures GetBestLocale(prefs, save, sysLocale, fs) == Some(Language(sysLocale))
  {
  }

  /** With neither system catalog, the default locale is returned. */
  lemma DefaultClosesChain(prefs: Preferences, save: SaveRecord, sysLocale: string, fs: FileSystem)
    requires FallsToSystem(prefs, save, fs)
    requires !HasCatalog(prefs, fs, sysLocale) && !HasCatalog(prefs, fs, Language(sysLocale))
    ensures GetBestLocale(prefs, save, sysLocale, fs) == Some(prefs.defaultLocale)
  {
  }

  /**
   Saving the chosen locale and resolving again (the next start of the
   program) chooses the same locale.
   */
  lemma ResolveIsStable(prefs: Preferences, save: SaveRecord, sysLocale: string, fs: FileSystem)
    ensures var r := GetBestLocale(prefs, save, sysLocale, fs);
            GetBestLocale(prefs, SaveRecord(r), sysLocale, fs) == r
  {
  }

  /**
   The hyphen form that is returned is not the form whose catalog was found:
   with only `de_DE` installed, "de-DE" is chosen although it has no catalog.
   */
  lemma HyphenFormHasNoCatalog()
    ensures var prefs := Preferences("data/", "locale/", "en");
            var fs := FileSystem({CatalogPath(prefs, "de_DE")}, map[]);
            var r := GetBestLocale(prefs, SaveRecord(None), "de_DE", fs);
            r == Some("de-DE") && !HasCatalog(prefs, fs, r.value)
  {
    var prefs := Preferences("data/", "locale/", "en");
    var fs := FileSystem({CatalogPath(prefs, "de_DE")}, map[]);
    assert CatalogPath(prefs, "None") != CatalogPath(prefs, "de_DE") by {
      assert CatalogPath(prefs, "None")[7] == 'N';
    }
    assert CatalogPath(prefs, "de-DE") != CatalogPath(prefs, "de_DE") by {
      assert CatalogPath(prefs, "de-DE")[9] == '-';
    }
    assert '_' in "de_DE" by { assert "de_DE"[2] == '_'; }
    assert ReplaceAll("de_DE", "_", "-") == "de-DE" by {
      assert !StartsWith("de_DE", "_") && "de_DE"[1..] == "e_DE";
      assert !StartsWith("e_DE", "_") && "e_DE"[1..] == "_DE";
      assert StartsWith("_DE", "_") && "_DE"[1..] == "DE";
      assert !StartsWith("DE", "_") && "DE"[1..] == "E";
      assert !StartsWith("E", "_") && "E"[1..] == "";
    }
  }
}
