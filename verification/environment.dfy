/**
 What the welcome window reads from its surroundings: the parts of the
 preferences record the core uses, the save record, and a snapshot of the
 filesystem as the program observes it.
 */
module Environment {
  import opened Wrappers

  /** The application name, used in the catalog file name and the i3 directive. */
  const App: string := "manjaro-hello"

  /** The fields of `preferences.json` that the core reads. */
  datatype Preferences = Preferences(
    dataPath: string,       // "data_path": root of the page tree, ends with '/'
    localePath: string,     // "locale_path": root of the compiled catalogs
    defaultLocale: string)  // "default_locale"

  /** The save record; `locale` is `None` until a language was chosen. */
  datatype SaveRecord = SaveRecord(locale: Option<string>)

  /**
   A filesystem snapshot: `files` are the paths `os.path.isfile` accepts,
   `contents` maps each path that `open(path).read()` succeeds on to its text.
   The two are independent: an existing file may still fail to open.
   */
  datatype FileSystem = FileSystem(files: set<string>, contents: map<string, string>)
  {
    predicate IsFile(path: string) {
      path in files
    }

    /** `open(path).read()`, or `None` where Python raises `OSError`. */
    function Read(path: string): Option<string> {
      if path in contents then Some(contents[path]) else None
    }
  }

  /** How `str.format` renders its argument: `None` becomes the text "None". */
  function FormatArg(x: Option<string>): string {
    match x
    case Some(s) => s
    case None => "None"
  }
}
