/** The single-file variant ClipboardGo-python.py: its own default rules
    with anchored patterns, a shape check on the loaded configuration, a
    matcher that uses full matches and treats an invalid pattern as a miss,
    and an opener that substitutes the whole file name with no extraction. */
module Standalone {
  import opened Wrappers
  import opened PyStr
  import opened Json
  import opened Regex
  import opened Config
  import M = Matcher
  import O = Opener

  /** DEFAULT_CONFIG of ClipboardGo-python.py. */
  const StandaloneRules: seq<Rule> := [
    Rule(Notepad, "*.txt", "{text}"),
    Rule(Outlook, "^[a-zA-Z0-9_.+-]+@[a-zA-Z0-9-]+\\.[a-zA-Z0-9-.]+$", "/c ipm.note /m {text}"),
    Rule(Edge, "^(https?://)?([\\w.-]+)\\.([a-zA-Z]{2,})(/[^\\s]*)?$", "{text}")
  ]

  const StandaloneConfig: Json := Arr(seq(|StandaloneRules|, i requires 0 <= i < |StandaloneRules| =>
    Entry(StandaloneRules[i].path, StandaloneRules[i].fmt, StandaloneRules[i].argFmt)))

  /** Why load_config fails: the file does not parse, or it is not a list of
      three-element lists (ValueError). */
  datatype ConfigError = DecodeError | ShapeError

  datatype Loaded = Loaded(conf: Json) | LoadFailed(error: ConfigError)

  /** Each element is a list of exactly three items, whatever their types. */
  predicate IsTriple(v: Json) {
    v.Arr? && |v.items| == 3
  }

  /** The shape check of load_config. */
  function CheckShape(conf: Json): (r: Loaded)
    ensures r.Loaded? <==> conf.Arr? && forall i :: 0 <= i < |conf.items| ==> IsTriple(conf.items[i])
    ensures r.Loaded? ==> r.conf == conf
    ensures r.LoadFailed? ==> r.error == ShapeError
  {
    if conf.Arr? && forall i :: 0 <= i < |conf.items| ==> IsTriple(conf.items[i]) then Loaded(conf)
    else LoadFailed(ShapeError)
  }

  /** Only the outer shape is checked: a triple of non-strings passes, a pair
      of strings or a bare object does not, and the empty list passes. */
  lemma ShapeExamples()
    ensures CheckShape(Arr([Arr([Num(1), Null, Bool(true)])])).Loaded?
    ensures CheckShape(Arr([Arr([Str("a"), Str("b")])])) == LoadFailed(ShapeError)
    ensures CheckShape(Obj([])) == LoadFailed(ShapeError)
    ensures CheckShape(Arr([])) == Loaded(Arr([]))
  {
    assert !IsTriple(Arr([Arr([Str("a"), Str("b")])]).items[0]);
  }

  /** Every configuration the utils matchers can read as rules passes the
      shape check unchanged; the converse fails, as ShapeExamples shows. */
  lemma RulesPassShapeCheck(conf: Json)
    ensures AsRules(conf).Some? ==> CheckShape(conf) == Loaded(conf)
  {
  }

  /** The standalone default configuration passes the shape check and reads
      back as StandaloneRules. */
  lemma StandaloneConfigShape()
    ensures CheckShape(StandaloneConfig) == Loaded(StandaloneConfig)
    ensures AsRules(StandaloneConfig) == Some(StandaloneRules)
  {
    var r := AsRules(StandaloneConfig);
    assert forall i :: 0 <= i < 3 ==> IsRuleEntry(StandaloneConfig.items[i]);
    assert forall i :: 0 <= i < 3 ==> r.value[i] == StandaloneRules[i];
    assert r.value == StandaloneRules;
  }

  /** load_config: create the file if it is missing, parse it, check its
      shape. Unlike utils/config.py a decode error is not repaired. */
  method LoadConfig(store: RuleStore) returns (r: Loaded)
    modifies store
    ensures store.file == Some(EnsuredFile(store.codec, store.defaults, old(store.file)))
    ensures store.codec.parse(store.file.value).None? ==> r == LoadFailed(DecodeError)
    ensures store.codec.parse(store.file.value).Some? ==> r == CheckShape(store.codec.parse(store.file.value).value)
  {
    store.EnsureExists();
    var parsed := store.codec.parse(store.file.value);
    if parsed.None? {
      return LoadFailed(DecodeError);
    }
    r := CheckShape(parsed.value);
  }

  /** match_format(text, fmt) */
  function MatchFormat(engine: Engine, text: string, fmt: string): (r: bool)
    ensures M.IsWildcardFormat(fmt) ==> (r <==> M.WildcardMatches(text, fmt))
    ensures !M.IsWildcardFormat(fmt) ==> (r <==> engine.compiles(fmt) && engine.fullMatch(fmt, text))
  {
    if M.IsWildcardFormat(fmt) then M.WildcardMatches(text, fmt)
    else if !engine.compiles(fmt) then false
    else engine.fullMatch(fmt, text)
  }

  /** On wildcard rules the two matchers agree; on any other rule this one
      asks for a full match where utils/matcher.py asks for a search, and an
      invalid pattern is a miss here but an error there. */
  lemma MatchersCompared(engine: Engine, text: string, fmt: string)
    ensures M.IsWildcardFormat(fmt) ==> MatchFormat(engine, text, fmt) == M.MatchAndExtract(engine, text, fmt).matched
    ensures !M.IsWildcardFormat(fmt) && !engine.compiles(fmt) ==>
              !MatchFormat(engine, text, fmt) && M.MatchAndExtract(engine, text, fmt).BadPattern?
  {
  }

  /** The first rule whose pattern matches. */
  function FirstFormat(engine: Engine, text: string, rules: seq<Rule>): (r: Option<Rule>)
    ensures r.Some? ==> r.value in rules && MatchFormat(engine, text, r.value.fmt)
    ensures rules == [] ==> r.None?
    decreases |rules|
  {
    if rules == [] then None
    else if MatchFormat(engine, text, rules[0].fmt) then Some(rules[0])
    else FirstFormat(engine, text, rules[1..])
  }

  /** FirstFormat finds the lowest-index matching rule, and None means no
      rule matches. */
  lemma {:induction false} FirstFormatIsFirst(engine: Engine, text: string, rules: seq<Rule>)
    ensures FirstFormat(engine, text, rules).None? <==>
              forall j :: 0 <= j < |rules| ==> !MatchFormat(engine, text, rules[j].fmt)
    ensures FirstFormat(engine, text, rules).Some? ==>
              exists i :: 0 <= i < |rules| && rules[i] == FirstFormat(engine, text, rules).value
                        && MatchFormat(engine, text, rules[i].fmt)
                        && forall j :: 0 <= j < i ==> !MatchFormat(engine, text, rules[j].fmt)
    decreases |rules|
  {
    if rules != [] && !MatchFormat(engine, text, rules[0].fmt) {
      var rest := rules[1..];
      FirstFormatIsFirst(engine, text, rest);
      assert forall j :: 0 < j < |rules| ==> rules[j] == rest[j - 1];
      if FirstFormat(engine, text, rest).Some? {
        var i :| 0 <= i < |rest| && rest[i] == FirstFormat(engine, text, rest).value
                 && MatchFormat(engine, text, rest[i].fmt)
                 && forall j :: 0 <= j < i ==> !MatchFormat(engine, text, rest[j].fmt);
        assert rules[i + 1] == rest[i];
        forall j | 0 <= j < i + 1 ensures !MatchFormat(engine, text, rules[j].fmt) {
          if j > 0 { assert rules[j] == rest[j - 1]; }
        }
      }
    } else if rules != [] {
      assert rules[0] == FirstFormat(engine, text, rules).value;
    }
  }

  /** An invalid pattern in front does not stop the scan: the rule after it
      decides, where utils/matcher.py stops with an error. */
  lemma InvalidPatternSkipped(engine: Engine, text: string, bad: Rule, rules: seq<Rule>)
    requires !M.IsWildcardFormat(bad.fmt) && !engine.compiles(bad.fmt)
    ensures FirstFormat(engine, text, [bad] + rules) == FirstFormat(engine, text, rules)
    ensures M.FirstMatch(engine, text, [bad] + rules) == M.Raised(bad.fmt)
  {
    assert ([bad] + rules)[1..] == rules;
  }

  /** find_software_for_file(text): `(path, arg_fmt)` of the first matching rule. */
  method FindSoftwareForFile(engine: Engine, text: string, rules: seq<Rule>) returns (r: Option<(string, string)>)
    ensures r.None? <==> FirstFormat(engine, text, rules).None?
    ensures r.Some? ==> r.value == (FirstFormat(engine, text, rules).value.path, FirstFormat(engine, text, rules).value.argFmt)
  {
    var i := 0;
    while i < |rules|
      invariant 0 <= i <= |rules|
      invariant FirstFormat(engine, text, rules) == FirstFormat(engine, text, rules[i..])
    {
      assert rules[i..][0] == rules[i] && rules[i..][1..] == rules[i + 1..];
      if MatchFormat(engine, text, rules[i].fmt) {
        return Some((rules[i].path, rules[i].argFmt));
      }
      i := i + 1;
    }
    return None;
  }

  /** The argument loop of open_with_software: each template token with
      the placeholder replaced by the file name, in order. */
  method SubstituteFileName(parts: seq<string>, filename: string) returns (args: seq<string>)
    ensures args == O.Substitute(parts, filename)
  {
    args := [];
    var i := 0;
    while i < |parts|
      invariant 0 <= i <= |parts|
      invariant |args| == i
      invariant forall k :: 0 <= k < i ==> args[k] == Replace(parts[k], O.Placeholder, filename)
    {
      var part := parts[i];
      if Contains(part, O.Placeholder) {
        args := args + [Replace(part, O.Placeholder, filename)];
      } else {
        ReplaceAbsent(part, O.Placeholder, filename);
        args := args + [part];
      }
      i := i + 1;
    }
  }

  /** open_with_software(filename): no argument vector without a matching
      rule with a non-empty path; otherwise the rule's path followed by one
      argument per template token, the placeholder replaced by the whole
      file name. */
  method OpenWithSoftware(engine: Engine, rules: seq<Rule>, filename: string) returns (argv: Option<seq<string>>)
    ensures var found := FirstFormat(engine, filename, rules);
            argv.None? <==> found.None? || found.value.path == []
    ensures var found := FirstFormat(engine, filename, rules);
            argv.Some? ==> argv.value == [found.value.path] + O.BuildArgs(found.value.argFmt, filename)
  {
    var found := FindSoftwareForFile(engine, filename, rules);
    if found.None? || found.value.0 == [] {
      return None;
    }
    var soft, argFmt := found.value.0, found.value.1;
    var args := SubstituteFileName(Split(argFmt), filename);
    argv := Some([soft] + args);
  }

  /** For rules found by this variant the argument vector is the one
      utils/opener.py's launch builds from the same rule with nothing
      extracted: the whole file name is substituted. */
  lemma SameArgsWithoutExtraction(soft: string, filename: string, argFmt: string)
    requires soft != []
    ensures O.Launch(Some(soft), None, filename, Some(argFmt)) == Some([soft] + O.BuildArgs(argFmt, filename))
  {
  }
}
