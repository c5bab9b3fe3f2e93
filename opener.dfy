/** The dispatcher of utils/opener.py: `launch` turns a matched rule into the
    argument vector handed to the process launcher, and `open_with_software`
    routes content through the matcher. Spawning is replaced by returning
    the argument vector. */
module Opener {
  import opened Wrappers
  import opened PyStr
  import opened Json
  import opened Regex
  import opened Matcher
  import Clipboard = ClipboardReader

  const Placeholder := "{text}"

  /** `extracted or text`: an absent or empty extraction falls back to the text. */
  function LaunchText(extracted: Option<string>, text: string): (r: string)
    ensures extracted.Some? && extracted.value != [] ==> r == extracted.value
    ensures extracted.None? || extracted.value == [] ==> r == text
  {
    if extracted.Some? && extracted.value != [] then extracted.value else text
  }

  /** One argument per template token, in order: the token with every
      `{text}` in it replaced by the value. */
  function Substitute(tokens: seq<string>, value: string): (args: seq<string>)
    ensures |args| == |tokens|
    ensures forall i :: 0 <= i < |args| ==> args[i] == Replace(tokens[i], Placeholder, value)
  {
    seq(|tokens|, i requires 0 <= i < |tokens| => Replace(tokens[i], Placeholder, value))
  }

  /** The arguments built from the template `arg_fmt`: split first, then substitute. */
  function BuildArgs(argFmt: string, value: string): (args: seq<string>)
    ensures |args| == |Split(argFmt)|
    ensures forall i :: 0 <= i < |args| && Split(argFmt)[i] == Placeholder ==> args[i] == value
  {
    ReplaceWhole(Placeholder, value);
    Substitute(Split(argFmt), value)
  }

  /** launch(soft, extracted, text, arg_fmt): no argument vector when `soft`
      is None or empty, otherwise `[soft] + args`. */
  function Launch(soft: Option<string>, extracted: Option<string>, text: string, argFmt: Option<string>): (argv: Option<seq<string>>)
    requires soft.Some? && soft.value != [] ==> argFmt.Some?
    ensures argv.None? <==> soft.None? || soft.value == []
    ensures argv.Some? ==> argv.value == [soft.value] + BuildArgs(argFmt.value, LaunchText(extracted, text))
  {
    if soft.None? || soft.value == [] then None
    else Some([soft.value] + BuildArgs(argFmt.value, LaunchText(extracted, text)))
  }

  /** Splitting happens before substitution: a template token that is just
      the placeholder gives one argument holding the whole value, spaces and
      all, and tokens without the placeholder pass through unchanged. */
  lemma SubstitutionKeepsValueWhole(argFmt: string, value: string, i: nat)
    requires i < |Split(argFmt)|
    ensures Split(argFmt)[i] == Placeholder ==> BuildArgs(argFmt, value)[i] == value
    ensures !Contains(Split(argFmt)[i], Placeholder) ==> BuildArgs(argFmt, value)[i] == Split(argFmt)[i]
  {
    if Split(argFmt)[i] == Placeholder {
      ReplaceWhole(Placeholder, value);
    }
    if !Contains(Split(argFmt)[i], Placeholder) {
      ReplaceAbsent(Split(argFmt)[i], Placeholder, value);
    }
  }

  /** A placeholder inside a longer token is replaced where it stands, and
      the text around it is kept. */
  lemma PlaceholderInsideToken(pre: string, post: string, value: string)
    requires !Contains(pre, Placeholder) && !Contains(post, Placeholder)
    ensures Replace(pre + Placeholder + post, Placeholder, value) == pre + value + post
  {
    ReplaceAfterFree(pre, Placeholder, value, post);
    ReplaceAbsent(post, Placeholder, value);
  }

  /** The template `--file={text}` gives the single argument `--file=` followed
      by the value. */
  lemma FileFlagTemplate(value: string)
    ensures BuildArgs("--file=" + Placeholder, value) == ["--file=" + value]
  {
    var token := "--file=" + Placeholder;
    assert NoSpace(token);
    assert Split(token) == [token];
    AbsentFirstChar("--file=", Placeholder);
    AbsentFirstChar([], Placeholder);
    PlaceholderInsideToken("--file=", [], value);
    assert "--file=" + Placeholder + [] == token;
    assert "--file=" + value + [] == "--file=" + value;
    assert Replace(token, Placeholder, value) == "--file=" + value;
    var args := BuildArgs(token, value);
    assert |args| == 1 && args[0] == Replace(token, Placeholder, value);
  }

  const MailTemplate := "/c ipm.note /m {text}"

  const MailTokens := ["/c", "ipm.note", "/m", "{text}"]

  /** The mail template splits into its four space-separated tokens. */
  lemma SplitMailTemplate()
    ensures Split(MailTemplate) == MailTokens
  {
    var tokens := MailTokens;
    assert JoinSpaces(tokens[3..]) == "{text}";
    assert JoinSpaces(tokens[2..]) == "/m {text}";
    assert JoinSpaces(tokens[1..]) == "ipm.note /m {text}";
    assert JoinSpaces(tokens) == MailTemplate;
    forall i | 0 <= i < |tokens| ensures tokens[i] != [] && NoSpace(tokens[i]) {
    }
    SplitJoin(tokens);
  }

  /** A template token without `{` passes through substitution unchanged. */
  lemma PlainToken(token: string, value: string)
    requires '{' !in token
    ensures Replace(token, Placeholder, value) == token
  {
    AbsentFirstChar(token, Placeholder);
    ReplaceAbsent(token, Placeholder, value);
  }

  /** Substituting into the mail tokens touches only the placeholder token. */
  lemma SubstituteMailTokens(value: string)
    ensures Substitute(MailTokens, value) == ["/c", "ipm.note", "/m", value]
  {
    PlainToken("/c", value);
    PlainToken("ipm.note", value);
    PlainToken("/m", value);
    ReplaceWhole(Placeholder, value);
    var args := Substitute(MailTokens, value);
    assert args[0] == "/c" && args[1] == "ipm.note" && args[2] == "/m" && args[3] == value;
  }

  /** The mail template `/c ipm.note /m {text}` gives the four arguments
      `/c`, `ipm.note`, `/m` and the value, whatever the value is. */
  lemma MailTemplateArgs(value: string)
    ensures BuildArgs(MailTemplate, value) == ["/c", "ipm.note", "/m", value]
  {
    SplitMailTemplate();
    SubstituteMailTokens(value);
  }

  /** Launching the mail rule's handler with an extracted address such as
      `a@b.com` gives `[soft, "/c", "ipm.note", "/m", address]`. */
  lemma MailTemplateExample(soft: string, text: string, address: string)
    requires soft != [] && address != []
    ensures Launch(Some(soft), Some(address), text, Some(MailTemplate))
         == Some([soft] + ["/c", "ipm.note", "/m", address])
  {
    MailTemplateArgs(address);
  }

  /** What dispatching content ends in. `Spawn(argv)`: the process launcher is
      asked to start `argv`. `SystemOpen(path)`: os.startfile. `NoRule`: the
      "no matching rule" message, nothing launched. `Failed(e)`: an exception
      escapes. */
  datatype Action = Spawn(argv: seq<string>) | SystemOpen(path: string) | NoRule | Failed(error: Error)

  datatype Error =
    | InvalidRegex(pattern: string)
      /** find_software is called with a keyword it does not accept (TypeError). */
    | UnexpectedKeyword

  /** find_software's result followed by launch. */
  function DispatchLookup(lookup: Lookup, text: string): (a: Action)
    ensures lookup.Raised? <==> a.Failed?
    ensures lookup.Raised? ==> a == Failed(InvalidRegex(lookup.pattern))
    ensures lookup.NoMatch? ==> a == NoRule
    ensures lookup.Found? && lookup.path == [] ==> a == NoRule
    ensures a.Spawn? <==> lookup.Found? && lookup.path != []
    ensures a.Spawn? ==> a.argv == [lookup.path] + BuildArgs(lookup.argFmt, LaunchText(lookup.extracted, text))
  {
    match lookup
    case Raised(p) => Failed(InvalidRegex(p))
    case NoMatch =>
      assert Launch(None, None, text, None).None?;
      NoRule
    case Found(path, argFmt, extracted) =>
      match Launch(Some(path), extracted, text, Some(argFmt))
      case None => NoRule
      case Some(argv) => Spawn(argv)
  }

  /** open_with_software(text, item_type, can_not_sys_open). The files branch
      passes `only_wildcard_format=True` to find_software, which takes no such
      parameter, so it raises; all other content is matched and launched. */
  method OpenWithSoftware(engine: Engine, rules: seq<Rule>, text: string, itemType: Option<Clipboard.Kind>, canNotSysOpen: bool)
    returns (a: Action)
    ensures itemType == Some(Clipboard.FilesKind) && !canNotSysOpen ==> a == Failed(UnexpectedKeyword)
    ensures !(itemType == Some(Clipboard.FilesKind) && !canNotSysOpen) ==>
              a == DispatchLookup(FirstMatch(engine, text, rules), text)
  {
    if itemType == Some(Clipboard.FilesKind) && !canNotSysOpen {
      return Failed(UnexpectedKeyword);
    }
    var lookup := FindSoftware(engine, text, rules);
    a := DispatchLookup(lookup, text);
  }
}
