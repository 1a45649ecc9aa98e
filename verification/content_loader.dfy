/**
 `Hello.get_page`: the text of one informational page, taken from the page
 tree of the saved locale, or from the default locale's tree when that file
 does not exist. A file that cannot be opened yields a fixed message.
 */
module ContentLoader {
  import opened Wrappers
  import opened Environment

  /** The message shown when the chosen page file cannot be read. */
  const CantLoadPage: string := "Can't load page."

  /** `<data_path>pages/<locale>/<name>` */
  function PagePath(prefs: Preferences, locale: string, name: string): string {
    prefs.dataPath + "pages/" + locale + "/" + name
  }

  /** The file that is opened: the saved locale's copy if it is a file, else the default's. */
  function ChosenPage(prefs: Preferences, save: SaveRecord, name: string, fs: FileSystem): string {
    var localized := PagePath(prefs, FormatArg(save.locale), name);
    if fs.IsFile(localized) then localized else PagePath(prefs, prefs.defaultLocale, name)
  }

  /**
   The page text. Every failure to open or read the chosen file degrades to
   `CantLoadPage`; nothing is raised to the caller.
   */
  function GetPage(prefs: Preferences, save: SaveRecord, name: string, fs: FileSystem): (text: string)
    ensures text == CantLoadPage || fs.Read(ChosenPage(prefs, save, name, fs)) == Some(text)
    ensures fs.Read(ChosenPage(prefs, save, name, fs)).None? ==> text == CantLoadPage
  {
    match fs.Read(ChosenPage(prefs, save, name, fs))
    case Some(body) => body
    case None => CantLoadPage
  }

  /** The saved locale's page is shown when it exists and can be read. */
  lemma LocalizedPageShown(prefs: Preferences, save: SaveRecord, name: string, fs: FileSystem, body: string)
    requires fs.IsFile(PagePath(prefs, FormatArg(save.locale), name))
    requires fs.Read(PagePath(prefs, FormatArg(save.locale), name)) == Some(body)
    ensures GetPage(prefs, save, name, fs) == body
  {
  }

  /** When the saved locale's page is not a file, the default locale's copy decides. */
  lemma MissingPageFallsBack(prefs: Preferences, save: SaveRecord, name: string, fs: FileSystem)
    requires !fs.IsFile(PagePath(prefs, FormatArg(save.locale), name))
    ensures var fallback := fs.Read(PagePath(prefs, prefs.defaultLocale, name));
            GetPage(prefs, save, name, fs) == if fallback.Some? then fallback.value else CantLoadPage
  {
  }

  /**
   A saved locale's page that exists but cannot be opened is not replaced by
   the default copy: the message is shown, even when the default copy is readable.
   */
  lemma UnreadablePageNoFallback(prefs: Preferences, save: SaveRecord, name: string, fs: FileSystem)
    requires fs.IsFile(PagePath(prefs, FormatArg(save.locale), name))
    requires fs.Read(PagePath(prefs, FormatArg(save.locale), name)).None?
    ensures GetPage(prefs, save, name, fs) == CantLoadPage
  {
  }

  /** An "about" page that exists only in English is shown for French. */
  lemma FrenchFallsBackToEnglish()
    ensures var prefs := Preferences("data/", "locale/", "en");
            var fs := FileSystem({"data/pages/en/about"}, map["data/pages/en/about" := "About text"]);
            GetPage(prefs, SaveRecord(Some("fr")), "about", fs) == "About text"
  {
    var prefs := Preferences("data/", "locale/", "en");
    assert PagePath(prefs, "fr", "about") != "data/pages/en/about" by {
      assert PagePath(prefs, "fr", "about")[11] == 'f';
    }
    assert PagePath(prefs, "en", "about") == "data/pages/en/about";
  }
}
