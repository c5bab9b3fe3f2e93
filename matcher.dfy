/** The rule matcher of utils/matcher.py (matcher.py at the root is the same
    code): wildcard rules compare file extensions, every other pattern is an
    unanchored regex search whose first group, if any, is extracted; the
    first matching rule wins and an invalid regex is an error. */
module Matcher {
  import opened Wrappers
  import opened PyStr
  import opened Regex
  import opened Json

  /** `fmt.startswith("*.") and len(fmt) > 2` */
  predicate IsWildcardFormat(fmt: string)
    ensures IsWildcardFormat(fmt) ==> |fmt| > 2 && fmt == "*." + fmt[2..]
  {
    StartsWith(fmt, "*.") && |fmt| > 2
  }

  /** A pattern is a wildcard exactly when it is `*.` followed by a non-empty
      suffix; `*.` alone is a regex. */
  lemma WildcardFormatShape(fmt: string)
    ensures IsWildcardFormat(fmt) <==> exists suffix :: suffix != [] && fmt == "*." + suffix
    ensures !IsWildcardFormat("*.")
  {
    if IsWildcardFormat(fmt) {
      assert fmt == "*." + fmt[2..];
    }
    if exists suffix :: suffix != [] && fmt == "*." + suffix {
      var suffix :| suffix != [] && fmt == "*." + suffix;
      assert fmt[..2] == "*.";
    }
  }

  /** The extension comparison of a wildcard rule. */
  predicate WildcardMatches(text: string, fmt: string)
    requires |fmt| >= 1
    ensures WildcardMatches(text, fmt) <==>
              |Ext(text)| == |fmt| - 1 && forall k :: 0 <= k < |Ext(text)| ==> LowerChar(Ext(text)[k]) == LowerChar(fmt[k + 1])
    ensures |fmt| > 1 && WildcardMatches(text, fmt) ==> Ext(text) != []
  {
    Lower(Ext(text)) == Lower(fmt[1..])
  }

  /** The outcome of match_and_extract: `(matched, extracted)`, or the
      `re.error` that re.search raises on a pattern that does not compile. */
  datatype Attempt = Attempt(matched: bool, extracted: Option<string>) | BadPattern(pattern: string)

  /** match_and_extract(text, fmt) */
  function MatchAndExtract(engine: Engine, text: string, fmt: string): (r: Attempt)
    ensures r.BadPattern? <==> !IsWildcardFormat(fmt) && !engine.compiles(fmt)
    ensures r.BadPattern? ==> r.pattern == fmt
    ensures IsWildcardFormat(fmt) ==> r == Attempt(WildcardMatches(text, fmt), Some(text))
    ensures r.Attempt? && !IsWildcardFormat(fmt) ==> (r.matched <==> engine.search(fmt, text).Some?)
  {
    if IsWildcardFormat(fmt) then
      Attempt(WildcardMatches(text, fmt), Some(text))
    else if !engine.compiles(fmt) then
      BadPattern(fmt)
    else match engine.search(fmt, text)
      case None => Attempt(false, None)
      case Some(groups) => Attempt(true, if |groups| > 0 then groups[0] else Some(text))
  }

  /** On a regex hit the extracted value is group 1 (None when that group did
      not take part) if the pattern has groups, and the whole original text,
      not the matched span, if it has none. A miss extracts nothing. */
  lemma RegexExtraction(engine: Engine, text: string, fmt: string)
    requires !IsWildcardFormat(fmt) && engine.compiles(fmt)
    ensures engine.search(fmt, text).None? ==> MatchAndExtract(engine, text, fmt) == Attempt(false, None)
    ensures engine.search(fmt, text).Some? && |engine.search(fmt, text).value| > 0 ==>
              MatchAndExtract(engine, text, fmt) == Attempt(true, engine.search(fmt, text).value[0])
    ensures engine.search(fmt, text) == Some([]) ==>
              MatchAndExtract(engine, text, fmt) == Attempt(true, Some(text))
  {
  }

  /** A wildcard rule never consults the regex engine. */
  lemma WildcardIgnoresEngine(e1: Engine, e2: Engine, text: string, fmt: string)
    requires IsWildcardFormat(fmt)
    ensures MatchAndExtract(e1, text, fmt) == MatchAndExtract(e2, text, fmt)
  {
  }

  /** The rule `*.txt` matches exactly the texts whose extension is `.txt`
      in any case, and always hands on the whole text. */
  lemma TxtWildcard(engine: Engine, text: string)
    ensures MatchAndExtract(engine, text, "*.txt") == Attempt(Lower(Ext(text)) == ".txt", Some(text))
  {
    assert StartsWith("*.txt", "*.") && "*.txt"[1..] == ".txt";
    assert Lower(".txt") == ".txt";
  }

  /** `*.txt` matches `a/b/C.TXT`: the comparison ignores ASCII case. */
  lemma TxtMatchesUpperCase(engine: Engine)
    ensures MatchAndExtract(engine, "a/b/C.TXT", "*.txt") == Attempt(true, Some("a/b/C.TXT"))
  {
    var text := "a/b" + ['/'] + "C" + "." + "TXT";
    assert text == "a/b/C.TXT";
    ExtOfFileName("a/b", '/', "C", "TXT");
    assert Ext(text) == ".TXT";
    assert Lower(".TXT") == ".txt";
    TxtWildcard(engine, text);
    assert Lower(Ext(text)) == ".txt";
  }

  /** `*.txt` does not match `a/b/c.txtx`: the whole extension is compared. */
  lemma TxtMissesLongerExtension(engine: Engine)
    ensures MatchAndExtract(engine, "a/b/c.txtx", "*.txt") == Attempt(false, Some("a/b/c.txtx"))
  {
    var text := "a/b" + ['/'] + "c" + "." + "txtx";
    ExtOfFileName("a/b", '/', "c", "txtx");
    assert |Lower(".txtx")| == 5;
    TxtWildcard(engine, text);
  }

  /** A dot file such as `dir/.txt` has no extension, so `*.txt` does not match it. */
  lemma DotFileNotMatched(engine: Engine, dir: string)
    ensures MatchAndExtract(engine, dir + "/.txt", "*.txt").matched == false
  {
    assert StartsWith("*.txt", "*.");
    DotFileHasNoExt(dir, '/', "txt");
    assert dir + ['/'] + "." + "txt" == dir + "/.txt";
    assert Lower(".txt") == ".txt";
  }

  predicate Hits(engine: Engine, text: string, rule: Rule) {
    MatchAndExtract(engine, text, rule.fmt).Attempt? && MatchAndExtract(engine, text, rule.fmt).matched
  }

  predicate Misses(engine: Engine, text: string, rule: Rule) {
    MatchAndExtract(engine, text, rule.fmt).Attempt? && !MatchAndExtract(engine, text, rule.fmt).matched
  }

  /** What find_software returns: `(path, arg_fmt, extracted)`, `(None, None,
      None)`, or the `re.error` raised by the first invalid pattern reached. */
  datatype Lookup = Found(path: string, argFmt: string, extracted: Option<string>) | NoMatch | Raised(pattern: string)

  /** The result of scanning `rules` in order. */
  function FirstMatch(engine: Engine, text: string, rules: seq<Rule>): (r: Lookup)
    ensures rules == [] ==> r == NoMatch
    ensures r.Raised? ==> !IsWildcardFormat(r.pattern) && !engine.compiles(r.pattern)
    decreases |rules|
  {
    if rules == [] then NoMatch
    else match MatchAndExtract(engine, text, rules[0].fmt)
      case BadPattern(p) => Raised(p)
      case Attempt(true, x) => Found(rules[0].path, rules[0].argFmt, x)
      case Attempt(false, _) => FirstMatch(engine, text, rules[1..])
  }

  /** One step of the scan: a hit decides, an invalid pattern raises, a miss
      hands on to the remaining rules. */
  lemma FirstMatchStep(engine: Engine, text: string, rules: seq<Rule>)
    requires rules != []
    ensures Hits(engine, text, rules[0]) ==>
              (FirstMatch(engine, text, rules)
               == Found(rules[0].path, rules[0].argFmt, MatchAndExtract(engine, text, rules[0].fmt).extracted))
    ensures Misses(engine, text, rules[0]) ==> FirstMatch(engine, text, rules) == FirstMatch(engine, text, rules[1..])
    ensures !Hits(engine, text, rules[0]) && !Misses(engine, text, rules[0]) ==>
              FirstMatch(engine, text, rules) == Raised(rules[0].fmt)
  {
  }

  /** find_software(text) over the rules load_config returned. */
  method FindSoftware(engine: Engine, text: string, rules: seq<Rule>) returns (r: Lookup)
    ensures r == FirstMatch(engine, text, rules)
  {
    var i := 0;
    while i < |rules|
      invariant 0 <= i <= |rules|
      invariant FirstMatch(engine, text, rules) == FirstMatch(engine, text, rules[i..])
    {
      assert rules[i..][0] == rules[i] && rules[i..][1..] == rules[i + 1..];
      var attempt := MatchAndExtract(engine, text, rules[i].fmt);
      match attempt {
        case BadPattern(p) =>
          return Raised(p);
        case Attempt(ok, extracted) =>
          if ok {
            return Found(rules[i].path, rules[i].argFmt, extracted);
          }
      }
      i := i + 1;
    }
    return NoMatch;
  }

  /** A Found result comes from the lowest-index rule that matches: every
      earlier rule was evaluated and missed, and path, template and extracted
      value are those of that rule. */
  lemma {:induction false} FoundIsFirstHit(engine: Engine, text: string, rules: seq<Rule>) returns (i: nat)
    requires FirstMatch(engine, text, rules).Found?
    ensures i < |rules| && Hits(engine, text, rules[i])
    ensures forall j :: 0 <= j < i ==> Misses(engine, text, rules[j])
    ensures FirstMatch(engine, text, rules)
         == Found(rules[i].path, rules[i].argFmt, MatchAndExtract(engine, text, rules[i].fmt).extracted)
    decreases |rules|
  {
    FirstMatchStep(engine, text, rules);
    if Hits(engine, text, rules[0]) {
      i := 0;
    } else {
      var k := FoundIsFirstHit(engine, text, rules[1..]);
      i := k + 1;
      forall j | 0 <= j < i ensures Misses(engine, text, rules[j]) {
        if j > 0 {
          assert rules[j] == rules[1..][j - 1];
        }
      }
    }
  }

  /** Conversely, the rule after a run of misses that hits is the one found. */
  lemma {:induction false} FirstHitIsFound(engine: Engine, text: string, rules: seq<Rule>, i: nat)
    requires i < |rules| && Hits(engine, text, rules[i])
    requires forall j :: 0 <= j < i ==> Misses(engine, text, rules[j])
    ensures FirstMatch(engine, text, rules)
         == Found(rules[i].path, rules[i].argFmt, MatchAndExtract(engine, text, rules[i].fmt).extracted)
    decreases i
  {
    if i > 0 {
      assert Misses(engine, text, rules[0]);
      FirstHitIsFound(engine, text, rules[1..], i - 1);
    }
  }

  /** `(None, None, None)` exactly when every rule was evaluated and missed;
      in particular an empty rule list never matches. */
  lemma {:induction false} NoMatchIffAllMiss(engine: Engine, text: string, rules: seq<Rule>)
    ensures FirstMatch(engine, text, rules) == NoMatch <==>
            forall j :: 0 <= j < |rules| ==> Misses(engine, text, rules[j])
    ensures FirstMatch(engine, text, []) == NoMatch
    decreases |rules|
  {
    if rules != [] {
      NoMatchIffAllMiss(engine, text, rules[1..]);
      if forall j :: 0 <= j < |rules[1..]| ==> Misses(engine, text, rules[1..][j]) {
        if Misses(engine, text, rules[0]) {
          forall j | 0 <= j < |rules| ensures Misses(engine, text, rules[j]) {
            if j > 0 { assert rules[j] == rules[1..][j - 1]; }
          }
        }
      }
      if forall j :: 0 <= j < |rules| ==> Misses(engine, text, rules[j]) {
        assert Misses(engine, text, rules[0]);
        forall j | 0 <= j < |rules[1..]| ensures Misses(engine, text, rules[1..][j]) {
          assert rules[1..][j] == rules[j + 1];
        }
      }
    }
  }

  /** An invalid regex reached before any hit is an error, not a miss: later
      rules are not consulted even when they would match. */
  lemma {:induction false} InvalidPatternRaises(engine: Engine, text: string, rules: seq<Rule>, i: nat)
    requires i < |rules| && MatchAndExtract(engine, text, rules[i].fmt).BadPattern?
    requires forall j :: 0 <= j < i ==> Misses(engine, text, rules[j])
    ensures FirstMatch(engine, text, rules) == Raised(rules[i].fmt)
    decreases i
  {
    if i > 0 {
      assert Misses(engine, text, rules[0]);
      InvalidPatternRaises(engine, text, rules[1..], i - 1);
    }
  }

  /** Rules after a decision are never consulted: once a prefix of the rules
      finds a rule or raises, appending rules changes nothing, and a prefix
      that misses entirely hands the decision to the rest. */
  lemma {:induction false} FirstMatchAppend(engine: Engine, text: string, front: seq<Rule>, back: seq<Rule>)
    ensures FirstMatch(engine, text, front) != NoMatch ==>
              FirstMatch(engine, text, front + back) == FirstMatch(engine, text, front)
    ensures FirstMatch(engine, text, front) == NoMatch ==>
              FirstMatch(engine, text, front + back) == FirstMatch(engine, text, back)
    decreases |front|
  {
    if front == [] {
      assert front + back == back;
    } else {
      assert (front + back)[0] == front[0];
      assert (front + back)[1..] == front[1..] + back;
      FirstMatchAppend(engine, text, front[1..], back);
    }
  }
}
