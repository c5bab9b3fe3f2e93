/** The rule store of utils/config.py: a configuration file that is created
    with the default rules when it is missing and overwritten with them when
    it does not parse. */
module Config {
  import opened Wrappers
  import opened Json

  const Notepad := "notepad"
  const Outlook := "C:\\Program Files\\Microsoft Office\\root\\Office16\\OUTLOOK.EXE"
  const Edge := "C:\\Program Files (x86)\\Microsoft\\Edge\\Application\\msedge.exe"

  function Entry(path: string, fmt: string, argFmt: string): Json {
    Arr([Str(path), Str(fmt), Str(argFmt)])
  }

  /** An e-mail address. */
  const MailAddress := "[a-zA-Z0-9_.+-]+@[a-zA-Z0-9-]+\\.[a-zA-Z0-9-.]+"

  /** The mail rule's pattern: an e-mail address, captured as group 1. */
  const MailPattern := "(" + MailAddress + ")"

  /** A URL with an optional scheme, captured as group 1. */
  const UrlPattern := "((?:https?://)?[a-zA-Z0-9.-]+\\.[a-zA-Z]{2,}(?:/[^\\s]*)?)"

  /** DEFAULT_CONFIG: text files to Notepad, an e-mail address to Outlook, a
      URL to Edge. */
  const DefaultRules: seq<Rule> := [
    Rule(Notepad, "*.txt", "{text}"),
    Rule(Outlook, MailPattern, "/c ipm.note /m {text}"),
    Rule(Edge, UrlPattern, "{text}")
  ]

  const DefaultConfig: Json := Arr(seq(|DefaultRules|, i requires 0 <= i < |DefaultRules| =>
    Entry(DefaultRules[i].path, DefaultRules[i].fmt, DefaultRules[i].argFmt)))

  /** Every default entry is a triple of strings, and the rules read back from
      it are DefaultRules, the first being `*.txt` to notepad with `{text}`. */
  lemma DefaultConfigShape()
    ensures DefaultConfig.Arr? && |DefaultConfig.items| == 3
    ensures forall i :: 0 <= i < 3 ==> IsRuleEntry(DefaultConfig.items[i])
    ensures AsRules(DefaultConfig) == Some(DefaultRules)
    ensures DefaultRules[0] == Rule("notepad", "*.txt", "{text}")
  {
    var r := AsRules(DefaultConfig);
    assert r.Some?;
    assert forall i :: 0 <= i < 3 ==> r.value[i] == DefaultRules[i];
    assert r.value == DefaultRules;
  }

  /** The file contents after ensure_config_exists: the defaults are written
      only when there is no file. */
  function EnsuredFile(codec: Codec, defaults: Json, file: Option<string>): (r: string)
    ensures file.Some? ==> r == file.value
    ensures file.None? && RoundTrips(codec, defaults) ==> codec.parse(r) == Some(defaults)
  {
    if file.None? then codec.dump(defaults) else file.value
  }

  /** What load_config returns, what the file holds afterwards, and whether
      the file was rewritten because it did not parse. */
  datatype LoadResult = LoadResult(conf: Json, file: string, healed: bool)

  function LoadFrom(codec: Codec, defaults: Json, file: Option<string>): (r: LoadResult)
    ensures r.healed <==> codec.parse(EnsuredFile(codec, defaults, file)).None?
    ensures !r.healed ==> r.file == EnsuredFile(codec, defaults, file) && codec.parse(r.file) == Some(r.conf)
    ensures r.healed ==> r.conf == defaults && r.file == codec.dump(defaults)
    ensures RoundTrips(codec, defaults) ==> codec.parse(r.file) == Some(r.conf)
  {
    var contents := EnsuredFile(codec, defaults, file);
    match codec.parse(contents)
    case Some(v) => LoadResult(v, contents, false)
    case None => LoadResult(defaults, codec.dump(defaults), true)
  }

  /** ensure_config_exists changes an existing file not at all, so running it
      twice is running it once. */
  lemma EnsureIdempotent(codec: Codec, defaults: Json, file: Option<string>)
    ensures file.Some? ==> EnsuredFile(codec, defaults, file) == file.value
    ensures EnsuredFile(codec, defaults, Some(EnsuredFile(codec, defaults, file)))
         == EnsuredFile(codec, defaults, file)
  {
  }

  /** A file that parses is returned as parsed (no shape check) and kept. */
  lemma LoadKeepsParsedFile(codec: Codec, defaults: Json, contents: string, v: Json)
    requires codec.parse(contents) == Some(v)
    ensures LoadFrom(codec, defaults, Some(contents)) == LoadResult(v, contents, false)
  {
  }

  /** A file that does not parse is overwritten with the defaults, which are returned. */
  lemma LoadHealsCorruptFile(codec: Codec, defaults: Json, contents: string)
    requires codec.parse(contents).None?
    ensures LoadFrom(codec, defaults, Some(contents)) == LoadResult(defaults, codec.dump(defaults), true)
  {
  }

  /** Loading a freshly created file gives the defaults back. */
  lemma FreshLoadGivesDefaults(codec: Codec, defaults: Json)
    requires RoundTrips(codec, defaults)
    ensures LoadFrom(codec, defaults, None) == LoadResult(defaults, codec.dump(defaults), false)
  {
  }

  /** load_config is idempotent: loading again from the file a load left
      behind returns the same configuration and leaves the same file. */
  lemma LoadIdempotent(codec: Codec, defaults: Json, file: Option<string>)
    requires RoundTrips(codec, defaults)
    ensures var first := LoadFrom(codec, defaults, file);
            var second := LoadFrom(codec, defaults, Some(first.file));
            second.conf == first.conf && second.file == first.file && !second.healed
  {
    var first := LoadFrom(codec, defaults, file);
    var contents := EnsuredFile(codec, defaults, file);
    if codec.parse(contents).None? {
      assert first.file == codec.dump(defaults);
    }
  }

  /** A corrupt file loaded twice yields the defaults both times. */
  lemma SelfHealTwice(codec: Codec, defaults: Json, contents: string)
    requires RoundTrips(codec, defaults) && codec.parse(contents).None?
    ensures LoadFrom(codec, defaults, Some(contents)).conf == defaults
    ensures LoadFrom(codec, defaults, Some(LoadFrom(codec, defaults, Some(contents)).file)).conf == defaults
  {
    LoadIdempotent(codec, defaults, Some(contents));
  }

  /** The configuration file, `None` while it does not exist. */
  class RuleStore {
    var file: Option<string>
    const codec: Codec
    const defaults: Json

    constructor (codec: Codec, defaults: Json, file: Option<string>)
      ensures this.codec == codec && this.defaults == defaults && this.file == file
    {
      this.codec := codec;
      this.defaults := defaults;
      this.file := file;
    }

    /** ensure_config_exists */
    method EnsureExists()
      modifies this
      ensures file == Some(EnsuredFile(codec, defaults, old(file)))
      ensures old(file).Some? ==> file == old(file)
    {
      if file.None? {
        file := Some(codec.dump(defaults));
      }
    }

    /** load_config: ensure the file, parse it, and on a decode error
        overwrite it with the defaults and return them. */
    method Load() returns (conf: Json)
      modifies this
      ensures var r := LoadFrom(codec, defaults, old(file));
              conf == r.conf && file == Some(r.file)
    {
      EnsureExists();
      var parsed := codec.parse(file.value);
      match parsed {
        case Some(v) =>
          conf := v;
        case None =>
          file := Some(codec.dump(defaults));
          conf := defaults;
      }
    }
  }

  /** Corrupting the file and loading twice gives the defaults both times. */
  method CorruptThenLoadTwice(codec: Codec, contents: string) returns (first: Json, second: Json)
    requires RoundTrips(codec, DefaultConfig) && codec.parse(contents).None?
    ensures first == DefaultConfig && second == DefaultConfig
  {
    var store := new RuleStore(codec, DefaultConfig, Some(contents));
    first := store.Load();
    second := store.Load();
    SelfHealTwice(codec, DefaultConfig, contents);
  }
}
