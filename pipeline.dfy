/** The pieces of the utils package put together: the default rules loaded
    from the store, matched against clipboard text and turned into an
    argument vector. */
module Pipeline {
  import opened Wrappers
  import opened PyStr
  import opened Json
  import opened Regex
  import opened Config
  import opened Matcher
  import opened Opener
  import Clipboard = ClipboardReader

  /** The template `{text}` gives the value as the only argument. */
  lemma PlaceholderTemplate(value: string)
    ensures BuildArgs(Placeholder, value) == [value]
  {
    assert JoinSpaces([Placeholder]) == Placeholder;
    SplitJoin([Placeholder]);
    ReplaceWhole(Placeholder, value);
  }

  /** Under the default rules any text whose extension is `.txt` in any case
      opens in Notepad with the text as its one argument, whatever the regex
      engine does. */
  lemma TextFileOpensInNotepad(engine: Engine, text: string)
    requires Lower(Ext(text)) == ".txt"
    ensures DispatchLookup(FirstMatch(engine, text, DefaultRules), text) == Spawn([Notepad, text])
  {
    TxtWildcard(engine, text);
    assert DefaultRules[0] == Rule(Notepad, "*.txt", Placeholder);
    assert FirstMatch(engine, text, DefaultRules) == Found(Notepad, Placeholder, Some(text));
    PlaceholderTemplate(text);
  }

  /** The default mail pattern is a regex, not a wildcard. */
  lemma MailPatternIsRegex()
    ensures !IsWildcardFormat(MailPattern)
  {
    assert MailPattern[..2][0] == MailPattern[0] == '(';
  }

  /** Text that is not a `.txt` path and in which the mail pattern finds an
      address opens a new Outlook message to that address. */
  lemma AddressOpensMail(engine: Engine, text: string, address: string)
    requires Lower(Ext(text)) != ".txt"
    requires engine.compiles(DefaultRules[1].fmt)
    requires engine.search(DefaultRules[1].fmt, text) == Some([Some(address)])
    requires address != []
    ensures DispatchLookup(FirstMatch(engine, text, DefaultRules), text)
         == Spawn([Outlook] + ["/c", "ipm.note", "/m", address])
  {
    TxtWildcard(engine, text);
    assert DefaultRules[0] == Rule(Notepad, "*.txt", Placeholder);
    assert Misses(engine, text, DefaultRules[0]);
    MailPatternIsRegex();
    var mail := DefaultRules[1];
    assert mail.fmt == MailPattern;
    assert MatchAndExtract(engine, text, mail.fmt) == Attempt(true, Some(address));
    FirstHitIsFound(engine, text, DefaultRules, 1);
    assert FirstMatch(engine, text, DefaultRules) == Found(Outlook, MailTemplate, Some(address));
    MailTemplateArgs(address);
  }

  /** A first run with no configuration file: the store creates the defaults,
      and copying a `.txt` path launches Notepad on it. */
  method FreshStoreOpensTextFile(codec: Codec, engine: Engine, text: string) returns (a: Action)
    requires RoundTrips(codec, DefaultConfig)
    requires Lower(Ext(text)) == ".txt"
    ensures a == Spawn([Notepad, text])
  {
    var store := new RuleStore(codec, DefaultConfig, None);
    var conf := store.Load();
    DefaultConfigShape();
    var rules := AsRules(conf).value;
    a := Opener.OpenWithSoftware(engine, rules, text, Some(Clipboard.TextKind), false);
    TextFileOpensInNotepad(engine, text);
  }
}
