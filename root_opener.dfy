/** The root-level opener.py: files are handed to the operating system
    without consulting any rule, everything else is matched and launched as
    in utils/opener.py, with the launch step written inline. */
module RootOpener {
  import opened Wrappers
  import opened PyStr
  import opened Json
  import opened Regex
  import opened Matcher
  import opened Opener
  import Clipboard = ClipboardReader

  /** open_with_software(text, item_type) */
  method OpenWithSoftware(engine: Engine, rules: seq<Rule>, text: string, itemType: Option<Clipboard.Kind>)
    returns (a: Action)
    ensures itemType == Some(Clipboard.FilesKind) ==> a == SystemOpen(text)
    ensures itemType != Some(Clipboard.FilesKind) ==> a == DispatchLookup(FirstMatch(engine, text, rules), text)
  {
    if itemType == Some(Clipboard.FilesKind) {
      return SystemOpen(text);
    }
    var lookup := FindSoftware(engine, text, rules);
    match lookup {
      case Raised(p) =>
        return Failed(InvalidRegex(p));
      case NoMatch =>
        return NoRule;
      case Found(soft, argFmt, extracted) =>
        if soft == [] {
          return NoRule;
        }
        var finalText := Opener.LaunchText(extracted, text);
        var args := Substitute(Split(argFmt), finalText);
        a := Spawn([soft] + args);
    }
  }

  /** For content other than files the root opener and the utils opener
      (called without `can_not_sys_open`) end in the same action; for files
      the root opener opens the path and the utils one fails. */
  method SameAsUtilsOpener(engine: Engine, rules: seq<Rule>, text: string, itemType: Option<Clipboard.Kind>)
    returns (root: Action, utils: Action)
    ensures itemType != Some(Clipboard.FilesKind) ==> root == utils
    ensures itemType == Some(Clipboard.FilesKind) ==> root == SystemOpen(text) && utils.Failed?
  {
    root := OpenWithSoftware(engine, rules, text, itemType);
    utils := Opener.OpenWithSoftware(engine, rules, text, itemType, false);
  }
}
