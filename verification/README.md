# manjaro-hello: the welcome window's decision logic, in Dafny

Manjaro Hello is the welcome window of the Manjaro desktop. Most of
`src/manjaro_hello.py` wires up Gtk widgets. Five pieces of it make decisions
of their own, and this project models those five over explicit inputs and
proves what they do:

- **Locale choice** (`Hello.get_best_locale`), module `LocaleResolver`. It picks the
  language at start-up from four things: the saved locale, the default locale,
  the system locale, and which compiled catalogs
  `<locale_path><X>/LC_MESSAGES/manjaro-hello.mo` exist.
- **Page loading** (`Hello.get_page`), module `ContentLoader`. It reads the saved
  locale's copy of a page, or the default locale's copy when the first is not a
  file. A file that cannot be opened gives "Can't load page.".
- **Autostart toggle** (`Hello.set_autostart`), module `Autostart`. A class holds
  the switch field, whether the autostart symlink exists, and the text of the
  optional i3 config. Its method changes that state in place, step by step, as
  the source does. A pure transition function `Toggle` specifies the method.
  The lemmas about `Toggle` state the transition table, the failure policy and
  the effect of repeated toggles on the i3 text.
- **Home expansion** (`fix_path`), module `Paths`.
- **lsb-release parsing** (`get_lsb_infos`), module `LsbRelease`. A method with a
  loop fills the dictionary line by line, proved equal to the function
  `LsbInfos`. The lemmas about `LsbInfos` state the parsing rules.

Supporting modules:

- `Wrappers` holds `Option`.
- `PyStr` holds the Python string operations used: `startswith`, `endswith`,
  slices, `replace`, `split` and `rstrip`. It also proves their facts, for
  example that marking every occurrence of a pattern and then unmarking gives
  back the text.
- `Environment` holds the preferences and save records, a filesystem snapshot
  (the paths `isfile` accepts, and the text of each path that can be opened),
  and how `str.format` renders `None`.

Behaviour of the code worth noting:

- The system locale's catalog is looked up in its underscore form (`en_US`), but
  the hyphen form (`en-US`) is returned. `HyphenFormHasNoCatalog` shows that the
  returned locale can lack a catalog of its own.
- An unset saved locale is not skipped. It is formatted into the catalog path
  and the page path as the text `None`.
- Toggling autostart twice in the same direction is idempotent for the symlink
  only. The i3 rewrite comments the directive out again (`##exec …`) or
  uncomments one more level (`DisableTwiceCommentsTwice`,
  `EnableTwiceUncommentsTwice`). Enabling then disabling restores the i3 text
  only when every directive in it was already commented out
  (`EnableThenDisableRestores`). A bare directive comes back commented out
  (`EnableThenDisableCommentsBareDirective`). The file is rewritten in place
  (seek, write, truncate), not through a temporary file.
- The i3 step runs after the link step, inside the same `try`. When the i3 file
  cannot be rewritten, the link change stays, but the switch keeps its old
  value, so the switch and the link can then disagree
  (`ConfigFaultKeepsLinkChange`).
- A page of the saved locale that exists but cannot be opened is not replaced
  by the default copy. The call returns "Can't load page.".
- `set_autostart` prints a caught `OSError` and returns nothing. The model's
  `Outcome` result stands for that swallowed error.

## Model

| member | source | states |
|---|---|---|
| LocaleResolver.GetBestLocale | src/manjaro_hello.py:116-138 | the result is unset only when the saved locale is unset and a catalog directory named "None" exists; otherwise it is the default locale, a locale whose catalog exists, or the hyphenated system locale whose underscore-form catalog exists |
| LocaleResolver.SavedLocaleWins | src/manjaro_hello.py:121-123 | a saved locale whose catalog exists is returned unchanged, whatever the system locale |
| LocaleResolver.SavedDefaultNeedsNoCatalog | src/manjaro_hello.py:124-125 | a saved locale equal to the default is returned without its catalog existing |
| LocaleResolver.SavedChoiceBeatsSystem | src/manjaro_hello.py:121-127 | while the saved choice decides, changing the system locale does not change the result |
| LocaleResolver.SystemLocaleHyphenated | src/manjaro_hello.py:127-133 | when the saved choice does not decide and the system locale's own catalog exists, the system locale is returned with every '_' turned into '-', every other character in place, and no '_' left |
| LocaleResolver.SystemLanguageFallback | src/manjaro_hello.py:134-136 | without that catalog, the first two characters are returned when their catalog exists |
| LocaleResolver.DefaultClosesChain | src/manjaro_hello.py:137-138 | with neither system catalog, the default locale is returned |
| LocaleResolver.ResolveIsStable | src/manjaro_hello.py:116-138 | saving the chosen locale and resolving again chooses the same locale |
| LocaleResolver.HyphenFormHasNoCatalog | src/manjaro_hello.py:129-131 | with only the `de_DE` catalog installed and nothing saved, "de-DE" is chosen although it has no catalog |
| ContentLoader.GetPage | src/manjaro_hello.py:230-245 | the text is either the message "Can't load page." or the content of the chosen file; it is the message whenever the chosen file cannot be read |
| ContentLoader.LocalizedPageShown | src/manjaro_hello.py:237-243 | an existing, readable page of the saved locale is shown |
| ContentLoader.MissingPageFallsBack | src/manjaro_hello.py:238-245 | when the saved locale's page is not a file, the default locale's copy is shown, or the message if that copy cannot be read |
| ContentLoader.UnreadablePageNoFallback | src/manjaro_hello.py:237-245 | an existing but unreadable page of the saved locale gives the message, even when the default copy is readable |
| ContentLoader.FrenchFallsBackToEnglish | src/manjaro_hello.py:237-243 | with only `en/about` present, the French "about" page shows the English text |
| Paths.FixPath | src/manjaro_hello.py:284-293 | a path without '~' is returned unchanged; with a home without '~' no '~' is left; the length grows by `|home| - 1` per '~' |
| Paths.FixPathConcat | src/manjaro_hello.py:291-292 | fixing a concatenation is concatenating the fixed pieces |
| Paths.FixPathChar | src/manjaro_hello.py:291-292 | a lone '~' becomes the home directory and any other character stays |
| Paths.FixPathInner | src/manjaro_hello.py:291-292 | a '~' in the middle of a path is expanded too, not only a leading one |
| Paths.FixPathIdempotent | src/manjaro_hello.py:284-293 | with a home directory free of '~', fixing twice equals fixing once |
| Autostart.AutostartSwitch.constructor | src/manjaro_hello.py:98 | the switch starts out equal to whether the autostart file exists |
| Autostart.AutostartSwitch.SetAutostart | src/manjaro_hello.py:203-228 | the new switch, link and i3 text, the caught-error outcome and the symlink call made are those of `Toggle` on the old state |
| Autostart.ToggleWithoutFaults | src/manjaro_hello.py:208-226 | without faults the call succeeds, the link exists exactly when wanted, the switch holds the wanted value and the i3 text is the rewritten text |
| Autostart.LinkTouchedOnlyOnChange | src/manjaro_hello.py:209-213 | the link is created exactly when wanted and absent, removed exactly when unwanted and present, and no symlink call is made when it already matches |
| Autostart.SwitchChangesOnlyOnSuccess | src/manjaro_hello.py:208-228 | the switch takes the wanted value exactly when no error was caught, and keeps its old value otherwise; an error is caught exactly when a symlink call that is made fails or the existing i3 file cannot be rewritten |
| Autostart.LinkFaultTouchesNothing | src/manjaro_hello.py:208-216 | a failing symlink call leaves the whole state, the i3 text included, as it was |
| Autostart.RepeatNeedsNoLinkOp | src/manjaro_hello.py:209-213 | asking again for the same state after a link step that succeeded makes no symlink call |
| Autostart.EnableAfterDisable | src/manjaro_hello.py:217-224 | uncommenting after commenting out gives back any i3 text |
| Autostart.DisableThenEnableRestores | src/manjaro_hello.py:208-226 | disabling then enabling without faults restores the i3 text and leaves the link present and the switch on |
| Autostart.DisableTwiceCommentsTwice | src/manjaro_hello.py:223-224 | disabling twice turns the directive into `##exec --no-startup-id manjaro-hello` |
| Autostart.EnableTwiceUncommentsTwice | src/manjaro_hello.py:221-222 | enabling twice turns `##exec …` into `#exec …` and then into `exec …` |
| Autostart.OverwriteThenTruncate | src/manjaro_hello.py:220-225 | after `seek(0)`, `write` and `truncate()` the file holds exactly the written text, whatever it held before; without the truncation a longer old text would differ from it |
| Autostart.DisableAfterEnable | src/manjaro_hello.py:221-224 | commenting out after uncommenting gives back any i3 text in which every directive is preceded by '#' |
| Autostart.EnableThenDisableRestores | src/manjaro_hello.py:208-226 | enabling then disabling without faults restores such an i3 text and leaves the link absent and the switch off |
| Autostart.EnableThenDisableCommentsBareDirective | src/manjaro_hello.py:221-224 | a text holding only the bare directive comes back commented out, so the condition is needed |
| Autostart.ConfigFaultKeepsLinkChange | src/manjaro_hello.py:208-228 | when the i3 file cannot be rewritten after the link step succeeded, the link holds the wanted state, the i3 text is unchanged and the switch keeps its old value, so a switch that matched the link no longer does |
| PyStr.UnmarkThenMark | src/manjaro_hello.py:222-224 | for a pattern without the marker that cannot overlap itself, if every occurrence of the pattern follows the marker, replacing each marker + pattern by the pattern and then each pattern by marker + pattern gives back the text |
| PyStr.MarkThenUnmark | src/manjaro_hello.py:222-224 | for a pattern without the marker character, replacing every pattern by marker + pattern and then every marker + pattern by the pattern gives back the text |
| PyStr.RStrip | src/manjaro_hello.py:335 | `rstrip()` returns a prefix of the text, everything removed is whitespace, and the result does not end in whitespace |
| PyStr.SplitCount | src/manjaro_hello.py:335 | `split` gives one more piece than there are separators |
| PyStr.SplitJoin | src/manjaro_hello.py:335 | joining the pieces with the separator gives back the text |
| PyStr.SplitPiecesFree | src/manjaro_hello.py:335 | no piece holds the separator |
| PyStr.Head | src/manjaro_hello.py:135-136 | `s[:n]` is a prefix of length `n`, or all of `s` when it is shorter |
| PyStr.Inner | src/manjaro_hello.py:339 | `s[1:-1]` is what lies between the first and last character, and empty for texts shorter than two |
| LsbRelease.GetLsbInfos | src/manjaro_hello.py:326-345 | the loop's result is `LsbInfos`: the returned pair, or the exception that escapes |
| LsbRelease.UnreadableFile | src/manjaro_hello.py:342-344 | an unreadable file gives `('not Manjaro', '0.0')` |
| LsbRelease.LineWithoutEqualsIgnored | src/manjaro_hello.py:334 | a line without '=' leaves the dictionary as it was |
| LsbRelease.MalformedIff | src/manjaro_hello.py:335 | a line raises `ValueError` exactly when it holds two or more '=' |
| LsbRelease.AssignmentLine | src/manjaro_hello.py:335-341 | a `key=value` line with one '=' enters the key without "DISTRIB_" and the value without one pair of surrounding quotes, unless that value is empty |
| LsbRelease.DistribPrefixStripped | src/manjaro_hello.py:336-337 | the prefix "DISTRIB_" is removed from a key |
| LsbRelease.QuotesStripped | src/manjaro_hello.py:338-339 | one pair of surrounding double quotes is removed from a value |
| LsbRelease.ParseFailsIff | src/manjaro_hello.py:333-335 | `ValueError` is raised exactly when some line is malformed |
| LsbRelease.LastLineWins | src/manjaro_hello.py:333-341 | a key is in the dictionary exactly when some line enters it, with the value entered by the last such line |
| LsbRelease.LastValueIsLast | src/manjaro_hello.py:340-341 | that value comes from a line entering the key, and no later line enters the key |
| LsbRelease.MissingCodenameRaises | src/manjaro_hello.py:345 | a readable file that never enters CODENAME raises `KeyError`, because the lookups stand outside the `try` |
| LsbRelease.ManjaroFile | src/manjaro_hello.py:326-345 | Manjaro's ID, RELEASE and quoted CODENAME lines give `('Ornara', '21.0')` |

## Left out

- The Gtk window is not modelled: the builder, widget tree, image loading, page creation, the signal handlers and the re-translation loop in `set_locale`. They are UI glue.
- `read_json` and `write_json` are not modelled. The save record is a value whose `locale` entry is set or unset. An empty save record is replaced by one with an unset `locale` (lines 49-50), which the model covers. A non-empty save record that lacks the `locale` key makes the source raise `KeyError`; that case is not represented.
- `gettext` and `locale.getdefaultlocale` are foreign library calls. The system locale is an input, and "Can't load page." is returned untranslated.
- `locale.getdefaultlocale()` returning `None` makes the source raise `TypeError`. The model takes the system locale as a string, so it does not represent that crash.
- The catalog path is built with `str.format` after concatenating `locale_path`, so braces in `locale_path` would be interpreted. The model concatenates plainly.
- Launching the installer, opening URLs and the optional application-browser plugin are external processes or code that is not shown.
- Filesystem semantics are abstracted. `isfile` and `open` are independent sets of paths. The autostart registration is a flag, so dangling links, the link's target and `fix_path` on the autostart path are not represented.
- A fault in the i3 step is modelled as happening before anything is written. A write that fails after part of the text is written is not modelled.
- Decoding errors while reading files (`UnicodeDecodeError`) are not modelled, nor is the text printed for a caught error.
