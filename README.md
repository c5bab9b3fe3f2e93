# ClipboardGo, modelled in Dafny

ClipboardGo reads the Windows clipboard when a hotkey is pressed. It picks
one item by priority (a file list, else an image, else text). It then finds
the first configured rule `[software path, pattern, argument template]` whose
pattern matches the item, and starts that software with arguments built from
the template. This project models that core and proves the promises it makes:

- first-match-wins over the ordered rules;
- per-token substitution of `{text}` after whitespace splitting;
- priority selection of clipboard items, and HTML-over-plain-text precedence;
- idempotent self-repair of the configuration file;
- the debounce window of the hotkey callback.

The repository keeps three copies of several components: the `utils/` package,
root-level modules, and the single script `ClipboardGo-python.py`. The copies
differ in ways that matter, so the model keeps them apart:

- `Matcher` models `utils/matcher.py`. The root `matcher.py` has the same
  logic statement for statement (matcher.py:10 folds utils/matcher.py:31-32
  into one line), so its rows below cite the same Dafny members. The two
  differ in where the rules come from: the root one imports `load_config`
  from the root `config.py` (one default rule, no self-heal), the `utils/`
  one from `utils/config.py`. The model passes the rules in as a parameter,
  which hides which configuration module supplies them. Patterns are
  searched unanchored and group 1 is extracted. An invalid pattern is an error.
- `Opener` models `utils/opener.py`. `RootOpener` models the root `opener.py`,
  whose files branch opens the path directly.
- `Standalone` models `ClipboardGo-python.py`:
  - its own default rules use anchored patterns;
  - `re.fullmatch` replaces `re.search`, and nothing is extracted;
  - an invalid pattern counts as a miss;
  - the loaded configuration gets a shape check, and a file that fails to
    decode is not repaired.
- `ClipboardReader` models `get_clipboard` and `choose_clipboard_item`. The
  `utils/` copy, the root copy and the script's `get_clipboard` are the same
  logic.
- `Config` models the rule store of `utils/config.py`: a class whose `file`
  field is the configuration file, `None` while the file does not exist.
- `Hotkey` models `safe_call` and `debounce_call` of `utils/hotkey.py`: a class
  whose `last` field is `_last_trigger`.
- `Pipeline` puts the `utils/` pieces together: the default rules, read from a
  fresh store, matched and launched.

Supporting modules:

- `PyStr` holds the Python string operations the code relies on:
  - `str.lower`, on ASCII letters;
  - `str.split()` with no argument;
  - `str.strip()`, with Python's whitespace set;
  - `str.find`, `str.replace` and `in`;
  - `os.path.splitext` as Windows' `ntpath` computes it.
- `Json` holds the JSON values and the rule triple.
- `Regex` holds the regex engine as an oracle: a record of three functions
  telling whether a pattern compiles, what `re.search` returns (the capture
  groups, each possibly absent), and whether `re.fullmatch` succeeds.

Several things become parameters. Every statement about them holds for all
choices:

- the regex engine;
- the JSON codec (`parse`, `dump`);
- HTML-to-text conversion (BeautifulSoup's `get_text`);
- image decoding (PIL's `Image.open`);
- the clock.

Process launches and `os.startfile` become returned values: an argument vector
(`Spawn`) or `SystemOpen(path)`.

Behaviour of the code worth noting:

- The extension is computed the way CPython's `ntpath.splitext` does. That is
  `genericpath._splitext` with separators `\` and `/`: the last dot after the
  last separator, with leading dots of the final component ignored. A drive
  colon is not a separator there, so it is not one here either.
- `utils/matcher.py` does not catch `re.error`. An invalid pattern reached
  before any match is therefore an error (`Raised`), not a skipped rule. Only
  `ClipboardGo-python.py` skips it.
- `utils/opener.py:43` calls `find_software(text, only_wildcard_format=True)`,
  but `find_software` takes no such parameter. The files branch therefore
  raises a `TypeError`, modelled as `Failed(UnexpectedKeyword)`.

## Model

| member | source | states |
|---|---|---|
| Matcher.WildcardFormatShape | utils/matcher.py:13 | a pattern is a wildcard exactly when it is `*.` followed by a non-empty suffix; `*.` alone is a regex; the same test is at matcher.py:5-6 and ClipboardGo-python.py:39-40 |
| Matcher.IsWildcardFormat | utils/matcher.py:13 | a wildcard pattern is longer than two characters and is `*.` followed by the rest; the same test is at matcher.py:5-6 |
| Matcher.WildcardMatches | utils/matcher.py:31 | a wildcard matches exactly when the text's extension has the length of the pattern after `*` and agrees with it character by character ignoring ASCII case; a text without an extension never matches |
| Matcher.MatchAndExtract | utils/matcher.py:30-41 | the result is an error exactly for a non-wildcard pattern that does not compile; a wildcard result is (ext-compare, the original text); a regex result is matched iff the search finds something; the same logic is at matcher.py:8-17 |
| Matcher.RegexExtraction | utils/matcher.py:35-41 | no match gives (False, None); with groups the extracted value is group 1, possibly None; with none it is the whole original text; the same logic is at matcher.py:12-17 |
| Matcher.WildcardIgnoresEngine | utils/matcher.py:30-32 | a wildcard rule's outcome does not depend on the regex engine |
| Matcher.TxtWildcard | utils/matcher.py:30-32 | the rule `*.txt` matches exactly the texts whose extension lower-cases to `.txt`, whatever the engine, and returns the whole text |
| Matcher.TxtMatchesUpperCase | utils/matcher.py:30-32 | `*.txt` matches `a/b/C.TXT`: the comparison ignores case |
| Matcher.TxtMissesLongerExtension | utils/matcher.py:30-32 | `*.txt` does not match `a/b/c.txtx`: the extension is compared whole, not as a prefix |
| Matcher.DotFileNotMatched | utils/matcher.py:31 | a dot file `dir/.txt` has no extension, so `*.txt` does not match it |
| Matcher.FindSoftware | utils/matcher.py:56-62 | the loop's result is the first-match scan FirstMatch over the rules in order; the same logic is at matcher.py:19-24 |
| Matcher.FirstMatch | utils/matcher.py:56-62 | an empty rule list gives `(None, None, None)`; an error names a pattern that is no wildcard and does not compile; the same logic is at matcher.py:19-24 |
| Matcher.FoundIsFirstHit | utils/matcher.py:56-59 | a found result comes from a rule that matches, every earlier rule matched nothing, and path, template and extracted value are that rule's |
| Matcher.FirstHitIsFound | utils/matcher.py:56-59 | conversely, the first matching rule after a run of misses is the one returned |
| Matcher.NoMatchIffAllMiss | utils/matcher.py:62 | `(None, None, None)` exactly when every rule misses; always for the empty rule list; the same logic is at matcher.py:24 |
| Matcher.InvalidPatternRaises | utils/matcher.py:35 | an invalid regex reached before any match is an error and later rules are not consulted |
| Matcher.FirstMatchAppend | utils/matcher.py:56-59 | rules after a decision are never consulted; a prefix that misses throughout hands the decision to the rest |
| PyStr.Lower | utils/matcher.py:31 | `lower()` maps each ASCII capital to its small letter and keeps every other character |
| PyStr.Splitext | utils/matcher.py:31 | `splitext` splits the path into root + ext with ext empty or a dot followed by no dot or separator |
| PyStr.ExtOfComponent | utils/matcher.py:31 | for any path `dir + comp` with `comp` its final component: the extension is `comp` from its last dot when some non-dot character precedes that dot in `comp`, and empty otherwise (no dot, or only leading dots) |
| PyStr.ExtOfName | utils/matcher.py:31 | a bare name not starting with a dot, then a dot and a dot-free extension, has exactly that extension, whatever dots the name holds |
| PyStr.ExtOfBareNames | utils/matcher.py:31 | `notes.TXT` has extension `.TXT`, case kept, and `a.tar.gz` has `.gz`: only the last dot counts |
| PyStr.ExtIgnoresLeadingDots | utils/matcher.py:31 | `d/..x` has no extension: leading dots of the final component do not start one |
| PyStr.ExtOfFileName | utils/matcher.py:31 | a path `dir/name.ext` has extension `.ext` |
| PyStr.DotFileHasNoExt | utils/matcher.py:31 | a final component made of a leading dot and a name has no extension |
| PyStr.NoDotNoExt | utils/matcher.py:31 | a path without a dot has no extension |
| Json.RulesOf | utils/matcher.py:56 | a list of entries reads as rules exactly when every entry is a string triple, entry by entry |
| Json.AsRules | utils/matcher.py:56 | a configuration reads as rules exactly when it is a list of string triples |
| Opener.LaunchText | utils/opener.py:12 | the substituted value is the extraction when it is non-empty, otherwise the text, for None and `""` alike; the same logic is at opener.py:17 |
| Opener.Substitute | utils/opener.py:15-18 | one argument per token, token i with every `{text}` replaced by the value; the same logic is at opener.py:18 |
| Opener.BuildArgs | utils/opener.py:15-18 | one argument per token of the split template, and a token that is exactly `{text}` becomes the whole value |
| PyStr.Replace | utils/opener.py:16 | replacing a pattern by itself changes nothing, and a replacement of the pattern's length keeps the length |
| PyStr.ReplaceAbsent | utils/opener.py:16 | replacing a pattern that does not occur changes nothing |
| PyStr.ReplaceWhole | utils/opener.py:16 | replacing in the pattern itself gives the replacement |
| PyStr.ReplaceAfterFree | utils/opener.py:16 | the first occurrence of the pattern, wherever it stands in the string, is replaced and the text before it is kept; replacement then carries on after it, left to right |
| Opener.PlaceholderInsideToken | utils/opener.py:16 | a `{text}` inside a longer token is replaced where it stands, with the text around it kept |
| Opener.FileFlagTemplate | utils/opener.py:15-18 | the template `--file={text}` gives the one argument `--file=` followed by the value |
| PyStr.Split | utils/opener.py:17 | `split()` gives no more tokens than characters, a non-empty string without whitespace as its only token, and no token for an all-whitespace string |
| PyStr.SplitTokensWellFormed | utils/opener.py:17 | `split()` yields non-empty tokens free of whitespace |
| PyStr.SplitJoin | utils/opener.py:17 | splitting tokens joined by single spaces gives the tokens back |
| PyStr.SplitSkipsSpace | utils/opener.py:17 | any run of whitespace, of any kind and length, before the text is skipped by `split()` |
| PyStr.SplitTakesToken | utils/opener.py:17 | a token runs up to the first whitespace character or to the end |
| PyStr.SplitInterleaved | utils/opener.py:17 | splitting tokens separated by non-empty runs of any whitespace, with optional leading and trailing whitespace, gives the tokens back |
| Opener.Launch | utils/opener.py:6-29 | no argument vector exactly when `soft` is None or empty; otherwise `[soft]` followed by the built arguments |
| Opener.SubstitutionKeepsValueWhole | utils/opener.py:15-18 | splitting precedes substitution: a `{text}` token becomes the whole value, spaces included, and a token without it passes unchanged |
| Opener.MailTemplateArgs | utils/opener.py:15-18 | the template `/c ipm.note /m {text}` gives `/c`, `ipm.note`, `/m` and the value |
| Opener.MailTemplateExample | utils/opener.py:26-29 | launching the mail rule with an extracted address gives `[soft, /c, ipm.note, /m, address]` |
| Opener.DispatchLookup | utils/opener.py:53-54 | a lookup error is exactly a failure carrying the offending pattern, no match and a found rule with an empty path launch nothing (`if not soft`), and a spawn happens exactly for a found rule with a non-empty path, with argv `[path] + args` |
| Opener.OpenWithSoftware | utils/opener.py:32-54 | the files branch without `can_not_sys_open` fails on the unknown keyword; all other content is matched by FirstMatch and launched |
| RootOpener.OpenWithSoftware | opener.py:5-24 | files are opened by the system without matching; anything else ends exactly as the utils dispatcher does for the first-match result |
| RootOpener.SameAsUtilsOpener | opener.py:12-24 | for non-file content the root and utils openers end in the same action; for files the root opens the path and the utils one fails |
| ClipboardReader.Fragment | utils/clipboardReader.py:75-82 | with both markers the fragment runs from after the first start marker to the first end marker, empty if the end comes first; with either missing it is the whole string; the same logic is at clipboardReader.py:59-65 |
| ClipboardReader.FragmentBetweenMarkers | utils/clipboardReader.py:75-82 | for `pre + start + body + end + post` where neither marker occurs in `pre` and the end marker does not occur in `body`, the fragment is exactly `body`, whatever tags `pre`, `body` and `post` hold |
| ClipboardReader.FragmentOfTypicalPayload | utils/clipboardReader.py:75-82 | `<html><body>` + start + `<b>x</b>` + end + `</body></html>` gives the fragment `<b>x</b>` |
| ClipboardReader.EndBeforeStartIsEmpty | utils/clipboardReader.py:78-80 | for `pre + end + mid + start + rest` where neither marker occurs in `pre` and the start marker does not occur in `mid`, the fragment is empty |
| PyStr.Find | utils/clipboardReader.py:75-76 | `find` is -1 exactly when the pattern does not occur, else the lowest index where it occurs |
| PyStr.Strip | utils/clipboardReader.py:84-91 | `strip()` removes exactly a whitespace prefix and suffix, leaving no whitespace at either end |
| ClipboardReader.RichTextWins | utils/clipboardReader.py:68-88 | with a non-empty HTML item the text comes from the stripped rendered fragment and the plain text plays no part; the same logic is at ClipboardGo-python.py:127-141 |
| ClipboardReader.PlainTextFallback | utils/clipboardReader.py:90-91 | without usable HTML the text is the stripped plain text, or nothing; the same logic is at clipboardReader.py:53-68 |
| ClipboardReader.FinalText | utils/clipboardReader.py:66-91 | the text for the text item never begins or ends with whitespace |
| ClipboardReader.GetClipboard | utils/clipboardReader.py:25-99 | the list built step by step from the snapshot is Items: the file list, then the decoded image, then the final text; the same steps are at clipboardReader.py:22-72 and ClipboardGo-python.py:97-151 |
| ClipboardReader.Items | utils/clipboardReader.py:25-99 | at most three items, and none exactly when the clipboard has no file list, no bitmap and no non-empty final text |
| ClipboardReader.ItemsLayout | utils/clipboardReader.py:25-99 | items strictly in the order files, image, text, at most one of each; files exactly when a file list is present, the decoded image exactly when a DIB is present, a text item exactly when the final text is non-empty, holding it; the same layout comes from clipboardReader.py:22-72 and ClipboardGo-python.py:97-151 |
| ClipboardReader.FirstOfKind | utils/clipboardReader.py:119-121 | one early-return loop: the index of the first item of the kind, or None if there is none |
| ClipboardReader.Choose | utils/clipboardReader.py:105-133 | None exactly for no items; otherwise an element of the input of the best kind present (files, image, text) and the earliest of that kind; the same logic is at clipboardReader.py:77-93 |
| ClipboardReader.ReadAndChoose | main.py:7-8 | the chosen item is the file list if there is one, else the image, else the text item if the final text is non-empty, else none |
| Config.DefaultConfigShape | utils/config.py:10-22 | every default entry is a string triple, they read back as the default rules, and the first is `*.txt` to notepad with `{text}` |
| Config.EnsuredFile | utils/config.py:31-38 | an existing file is kept as it is; a created file parses back to the defaults when they round-trip |
| Config.EnsureIdempotent | utils/config.py:31-38 | an existing file is left alone, so ensuring twice is ensuring once |
| Config.LoadKeepsParsedFile | utils/config.py:52-54 | a file that parses is returned as parsed, without a shape check, and not rewritten |
| Config.LoadHealsCorruptFile | utils/config.py:56-65 | a file that does not parse is overwritten with the defaults, which are returned |
| Config.FreshLoadGivesDefaults | utils/config.py:31-38 | loading a freshly created file yields the defaults, given that parse inverts dump on them |
| Config.LoadFrom | utils/config.py:50-65 | the file is rewritten exactly when it does not parse, and then holds the dumped defaults, which are returned; otherwise the file is kept and the parsed value returned; when the defaults round-trip the file left behind always parses to the returned value |
| Config.LoadIdempotent | utils/config.py:50-65 | a second load from the file a load left behind returns the same value, leaves the same file and repairs nothing |
| Config.SelfHealTwice | utils/config.py:52-65 | a corrupt file yields the defaults on the first load and again on the next |
| Config.RuleStore.constructor | utils/config.py:5 | the store starts with the given file state |
| Config.RuleStore.EnsureExists | utils/config.py:25-38 | the file becomes the dumped defaults if it was missing and is unchanged otherwise |
| Config.RuleStore.Load | utils/config.py:41-65 | returns and leaves exactly what LoadFrom describes for the old file state |
| Config.CorruptThenLoadTwice | utils/config.py:52-65 | on one store, a corrupt file loaded twice gives the default configuration both times |
| Standalone.CheckShape | ClipboardGo-python.py:33-35 | accepts exactly a list whose every element is a list of length 3, returning it unchanged, and rejects with the shape error otherwise |
| Standalone.ShapeExamples | ClipboardGo-python.py:33-35 | element types are not checked: a triple of non-strings passes, a pair or an object fails, the empty list passes |
| Standalone.RulesPassShapeCheck | ClipboardGo-python.py:33-35 | every configuration that reads as a list of string triples passes the shape check unchanged |
| Standalone.StandaloneConfigShape | ClipboardGo-python.py:13-19 | the script's default configuration passes its own shape check and reads back as its default rules |
| Standalone.LoadConfig | ClipboardGo-python.py:29-36 | the file is created if missing; a decode error is reported and not repaired; otherwise the shape check decides |
| Standalone.MatchFormat | ClipboardGo-python.py:43-50 | a wildcard compares lowercased extensions; any other pattern matches iff it compiles and fully matches the text |
| Standalone.MatchersCompared | ClipboardGo-python.py:47-50 | on wildcards the script and utils matchers agree; an invalid pattern is a miss here and an error in utils/matcher.py |
| Standalone.FirstFormat | ClipboardGo-python.py:53-58 | a found rule is one of the rules and its pattern matches; an empty list finds nothing |
| Standalone.FirstFormatIsFirst | ClipboardGo-python.py:53-58 | the found rule is the lowest-index one that matches; None exactly when no rule matches |
| Standalone.InvalidPatternSkipped | ClipboardGo-python.py:47-50 | an invalid pattern in front does not block the rules after it, while the utils matcher stops there with an error |
| Standalone.FindSoftwareForFile | ClipboardGo-python.py:53-58 | the loop returns `(path, arg_fmt)` of the first matching rule, or None |
| Standalone.OpenWithSoftware | ClipboardGo-python.py:61-81 | no argument vector without a matching rule with a non-empty path; otherwise `[soft]` plus one argument per template token, `{text}` replaced by the whole file name |
| Standalone.SubstituteFileName | ClipboardGo-python.py:68-73 | the argument loop yields, token by token, the template token with `{text}` replaced by the file name |
| Standalone.SameArgsWithoutExtraction | ClipboardGo-python.py:69-74 | the script's argument loop builds what utils launch builds when nothing was extracted |
| Hotkey.SafeCall | utils/hotkey.py:12-16 | an `Exception` from the callback never escapes and is reported with its message; normal return reports nothing; only a non-`Exception` escapes |
| Hotkey.LastAfter | utils/hotkey.py:37-41 | the timestamp is the initial one or one of the presses, and with a non-negative delay it never moves back before the initial one |
| Hotkey.Accepted | utils/hotkey.py:37-41 | no more calls than presses, and with a non-negative delay every call is at least `delay` after the initial timestamp |
| Hotkey.LastIsLastAccepted | utils/hotkey.py:37-41 | the timestamp is the last accepted trigger, or the initial one if none was accepted; accepted triggers are presses |
| Hotkey.AcceptedAreSpaced | utils/hotkey.py:24-41 | accepted triggers are at least `delay` apart and the first is at least `delay` after the initial timestamp |
| Hotkey.PressStep | utils/hotkey.py:37-41 | a press within `delay` of the timestamp invokes nothing and keeps it; any other invokes once and moves it to `now` |
| Hotkey.TwoPressesFiftyMsApart | utils/hotkey.py:24 | two presses 50 ms apart with the 300 ms delay invoke at most once, exactly once when the first is accepted |
| Hotkey.WindowFromLastAccepted | utils/hotkey.py:37-41 | the window counts from the last accepted press: presses at 0, 200 and 350 ms invoke at 0 and 350 |
| Hotkey.Debouncer.constructor | utils/hotkey.py:21 | the timestamp starts at 0 with no presses seen |
| Hotkey.Debouncer.Trigger | utils/hotkey.py:32-41 | invokes exactly when `now - last >= delay`, then sets `last := now`; a rejected press changes nothing but the log of presses |
| Hotkey.Debouncer.Press | utils/hotkey.py:63 | `debounce_call(safe_call(func))`: the timestamp moves on every accepted press even when the callback raises, and an `Exception` never escapes |
| Hotkey.TwoPresses | utils/hotkey.py:63 | with the default delay, a first press runs the callback and a second one 50 ms later does not |
| Pipeline.TextFileOpensInNotepad | utils/config.py:11 | under the default rules a `.txt` path in any case opens in notepad with the path as its only argument, for every regex engine |
| Pipeline.AddressOpensMail | utils/config.py:12-16 | a non-`.txt` text in which the mail pattern finds an address opens Outlook with `/c ipm.note /m address` |
| Pipeline.FreshStoreOpensTextFile | utils/opener.py:53-54 | on a first run without a configuration file a `.txt` path is launched in notepad |

## Left out

- Clipboard access (`OpenClipboard`, format queries, `CloseClipboard`) is OS I/O. A `Snapshot` record stands for what the clipboard holds.
- The decoding of a bytes HTML item as UTF-8 with errors ignored is left out, and with it the test `if html_item:` moves from the raw bytes to the decoded string (utils/clipboardReader.py:68-70, clipboardReader.py:54-56, ClipboardGo-python.py:129-131): non-empty bytes that decode to nothing take the HTML branch there and give no text item, while the model falls back to the plain text. The same goes for the `latin1` encoding of a DIB that arrives as a string. The snapshot holds the HTML as a string and the DIB as bytes.
- BeautifulSoup's `get_text` and PIL's `Image.open` are foreign libraries. They are function parameters, and an exception from either is not modelled.
- The `re` engine is a foreign library, so it is an oracle. No property of real regex semantics is assumed.
- JSON parsing and serialisation and the filesystem are replaced by an abstract file state and a parse/dump pair. Round-tripping is assumed only for the default configuration, where the lemmas need it. A store that cannot write its file is not modelled.
- Matcher.FindSoftware: a configuration that is valid JSON but not a list of string triples is excluded; the rules are taken as a sequence of string triples and `Json.AsRules` says which configurations are such lists. The code does not simply fail on such a value: `for path, fmt, arg_fmt in load_config()` unpacks any iterable of three-item iterables, so `{}` or `""` yields no rule and ends in `(None, None, None)`, and `["abc"]` or `{"abc": 1}` unpacks into the string rule `('a', 'b', 'c')`. On a triple with non-string items there are four outcomes: a non-string `fmt` raises at `fmt.startswith` (utils/matcher.py:13); a matching rule with a falsy non-string path, such as `null`, ends in the no-rule message at `if not soft` (utils/opener.py:7); a matching rule with a non-string `arg_fmt` raises at `arg_fmt.split()` (utils/opener.py:17); a matching rule with a truthy non-string path, such as a number, `true` or a list, gets past `if not soft` and raises TypeError in `subprocess.Popen([soft] + args)` (utils/opener.py:26-29).
- Standalone.FindSoftwareForFile: the same exclusion. The shape check at ClipboardGo-python.py:33-35 lets through triples of non-strings, with the same four outcomes, none of them modelled: a non-string `fmt` raises at `fmt.startswith` (ClipboardGo-python.py:40); a matching rule with a falsy non-string path ends in the no-rule message at `if not soft` (ClipboardGo-python.py:63-65); a matching rule with a non-string `arg_fmt` raises at `arg_fmt.split()` (ClipboardGo-python.py:70); a matching rule with a truthy non-string path raises TypeError in `subprocess.Popen([soft] + args)` (ClipboardGo-python.py:81).
- Config.LoadFrom: the file is modelled as already decoded text. A file that is not valid UTF-8 makes `open(..., encoding="utf-8")` plus `json.load` raise `UnicodeDecodeError`, which the `except json.decoder.JSONDecodeError` at utils/config.py:56 does not catch, so `load_config` raises and the file stays as it is; LoadIdempotent, SelfHealTwice and CorruptThenLoadTwice speak only of files that decode, and heal only those that decode but do not parse.
- Hotkey.Debouncer: `_last_trigger` is one module global shared by every `debounce_call` wrapper (utils/hotkey.py:21,33), while each Debouncer has its own `last`; only one wrapper is ever created (utils/hotkey.py:63), so no behaviour of the program is lost, but two wrappers sharing one timestamp are not modelled.
- `subprocess.Popen` and `os.startfile` are process launches. They are returned as `Spawn(argv)` and `SystemOpen(path)`.
- The `print` output of the openers and load functions is not modelled. The one exception is the error message of `safe_call`, which is the `report` value.
- `keyboard.add_hotkey`, `keyboard.wait` and `unhook_all_hotkeys` in utils/hotkey.py, and the root hotkey.py, are OS hooks.
- `time.time()` returns float seconds. Timestamps here are integer milliseconds, with the 0.3 s delay as 300.
- PyStr.Lower: ASCII letters only; Python's `lower()` also folds non-ASCII letters.
- PyStr.Splitext: an ntpath drive colon is not a separator, as in CPython's `ntpath.splitext`.
- utils/scan.py and utils/image.py are thin wrappers over foreign libraries.
- The root config.py is only an existence check plus a `json.load` passthrough, with no recovery or validation.
- main.py is orchestration glue, apart from the read-and-choose step in `ReadAndChoose`. Its use of a possibly empty choice is not modelled.
- The `__main__` loop of ClipboardGo-python.py only prints and dispatches.
- Opener.OpenWithSoftware: the wildcard-only files branch is modelled only as the error it raises. The filtering it seems to intend does not exist in the code.
