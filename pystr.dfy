/** The Python string operations the dispatcher relies on, written out so
    that their edge cases are part of the model: str.isspace, ASCII lower,
    str.startswith, str.find, str.rfind of one character, str.replace,
    str.split() with no separator, str.strip() and ntpath.splitext. */
module PyStr {

  /** The characters Python's str.isspace() accepts; str.split() and
      str.strip() without arguments cut on exactly these. */
  predicate IsSpace(c: char) {
    ('\U{9}' <= c <= '\U{D}') || ('\U{1C}' <= c <= '\U{20}') ||
    c == '\U{85}' || c == '\U{A0}' || c == '\U{1680}' ||
    ('\U{2000}' <= c <= '\U{200A}') || c == '\U{2028}' || c == '\U{2029}' ||
    c == '\U{202F}' || c == '\U{205F}' || c == '\U{3000}'
  }

  predicate NoSpace(s: string) {
    forall k :: 0 <= k < |s| ==> !IsSpace(s[k])
  }

  /** ASCII lower-casing: only A-Z change. */
  function LowerChar(c: char): (r: char)
    ensures 'A' <= c <= 'Z' ==> r as int == c as int + 32
    ensures !('A' <= c <= 'Z') ==> r == c
  {
    if 'A' <= c <= 'Z' then (c as int + 32) as char else c
  }

  function Lower(s: string): (r: string)
    ensures |r| == |s|
    ensures forall k :: 0 <= k < |s| ==> r[k] == LowerChar(s[k])
  {
    if s == [] then [] else [LowerChar(s[0])] + Lower(s[1..])
  }

  predicate StartsWith(s: string, prefix: string) {
    |prefix| <= |s| && s[..|prefix|] == prefix
  }

  /** `pat` occurs in `s` starting at index `i`. */
  predicate OccursAt(s: string, pat: string, i: int) {
    0 <= i && i + |pat| <= |s| && s[i..i + |pat|] == pat
  }

  /** Python's `pat in s`. */
  predicate Contains(s: string, pat: string) {
    exists i :: 0 <= i <= |s| && OccursAt(s, pat, i)
  }

  function FindFrom(s: string, pat: string, from: nat): (r: int)
    requires from <= |s|
    ensures r == -1 || (from <= r && OccursAt(s, pat, r))
    ensures r == -1 ==> forall j :: from <= j <= |s| ==> !OccursAt(s, pat, j)
    ensures r != -1 ==> forall j :: from <= j < r ==> !OccursAt(s, pat, j)
    decreases |s| - from
  {
    if OccursAt(s, pat, from) then from
    else if from == |s| then -1
    else FindFrom(s, pat, from + 1)
  }

  /** Python's str.find: the lowest index where `pat` occurs, or -1. */
  function Find(s: string, pat: string): (r: int)
    ensures r == -1 <==> !Contains(s, pat)
    ensures r != -1 ==> OccursAt(s, pat, r) && forall j :: 0 <= j < r ==> !OccursAt(s, pat, j)
  {
    FindFrom(s, pat, 0)
  }

  /** Python's str.rfind for a single character: the highest index of `c`, or -1. */
  function LastIndexOf(s: string, c: char): (r: int)
    ensures -1 <= r < |s|
    ensures r == -1 ==> forall k :: 0 <= k < |s| ==> s[k] != c
    ensures r != -1 ==> s[r] == c && forall k :: r < k < |s| ==> s[k] != c
  {
    if s == [] then -1
    else if s[|s| - 1] == c then |s| - 1
    else LastIndexOf(s[..|s| - 1], c)
  }

  /** Python's str.replace(pat, rep) for a non-empty `pat`: occurrences are
      replaced left to right, never overlapping. */
  function Replace(s: string, pat: string, rep: string): (r: string)
    requires |pat| > 0
    ensures pat == rep ==> r == s
    ensures |rep| == |pat| ==> |r| == |s|
    decreases |s|
  {
    if |s| < |pat| then s
    else if s[..|pat|] == pat then
      assert s == s[..|pat|] + s[|pat|..];
      rep + Replace(s[|pat|..], pat, rep)
    else
      assert s == [s[0]] + s[1..];
      [s[0]] + Replace(s[1..], pat, rep)
  }

  /** A string without the placeholder is left exactly as it is. */
  lemma {:induction false} ReplaceAbsent(s: string, pat: string, rep: string)
    requires |pat| > 0 && !Contains(s, pat)
    ensures Replace(s, pat, rep) == s
    decreases |s|
  {
    if |s| >= |pat| {
      assert !OccursAt(s, pat, 0);
      forall i | 0 <= i <= |s[1..]| && OccursAt(s[1..], pat, i)
        ensures false
      {
        assert s[1..][i..i + |pat|] == s[i + 1..i + 1 + |pat|];
        assert OccursAt(s, pat, i + 1);
      }
      ReplaceAbsent(s[1..], pat, rep);
    }
  }

  /** A string holding no occurrence of the first character of `pat` does not contain `pat`. */
  lemma AbsentFirstChar(s: string, pat: string)
    requires |pat| > 0 && forall k :: 0 <= k < |s| ==> s[k] != pat[0]
    ensures !Contains(s, pat)
  {
    forall i | 0 <= i <= |s| ensures !OccursAt(s, pat, i) {
      if i + |pat| <= |s| {
        assert s[i..i + |pat|][0] == s[i];
      }
    }
  }

  /** A token that is exactly the placeholder becomes exactly the value,
      whatever characters (spaces included) the value holds. */
  lemma ReplaceWhole(pat: string, rep: string)
    requires |pat| > 0
    ensures Replace(pat, pat, rep) == rep
  {
    assert pat[..|pat|] == pat;
    assert pat[|pat|..] == [];
  }

  /** The first occurrence of `pat` is replaced and the rest is processed
      afresh after it: with `x` free of `pat`, and `pat` unable to overlap a
      copy of itself that starts inside `x`, the replacement happens exactly
      where `pat` was written, whatever surrounds it. */
  lemma {:induction false} ReplaceAfterFree(x: string, pat: string, rep: string, y: string)
    requires |pat| > 0
    requires forall k :: 0 < k < |pat| ==> pat[k] != pat[0]
    requires !Contains(x, pat)
    ensures Replace(x + pat + y, pat, rep) == x + rep + Replace(y, pat, rep)
    decreases |x|
  {
    var s := x + pat + y;
    if x == [] {
      assert s == pat + y;
      assert s[..|pat|] == pat && s[|pat|..] == y;
    } else {
      var tail := x[1..] + pat + y;
      NoOccurrenceBefore(x, pat, y);
      assert s == [x[0]] + tail;
      assert Replace(s, pat, rep) == [x[0]] + Replace(tail, pat, rep);
      AbsentInTail(x, pat);
      ReplaceAfterFree(x[1..], pat, rep, y);
      assert x == [x[0]] + x[1..];
    }
  }

  /** `pat` does not start at the front of `x + pat + y` when `x` is
      non-empty, free of `pat`, and `pat` cannot overlap itself at its head. */
  lemma NoOccurrenceBefore(x: string, pat: string, y: string)
    requires |pat| > 0 && x != []
    requires forall k :: 0 < k < |pat| ==> pat[k] != pat[0]
    requires !Contains(x, pat)
    ensures (x + pat + y)[..|pat|] != pat
  {
    var s := x + pat + y;
    if |x| >= |pat| {
      assert s[..|pat|] == x[0..|pat|];
      assert !OccursAt(x, pat, 0);
    } else {
      assert s[..|pat|][|x|] == pat[0];
      assert pat[|x|] != pat[0];
    }
  }

  /** Dropping the first character keeps a string free of `pat`. */
  lemma AbsentInTail(x: string, pat: string)
    requires x != [] && !Contains(x, pat)
    ensures !Contains(x[1..], pat)
  {
    forall i | 0 <= i <= |x[1..]| && OccursAt(x[1..], pat, i)
      ensures false
    {
      assert x[1..][i..i + |pat|] == x[i + 1..i + 1 + |pat|];
      assert OccursAt(x, pat, i + 1);
    }
  }

  /** Length of the run of non-space characters at the start of `s`. */
  function TokenLength(s: string): (n: nat)
    ensures n <= |s|
    ensures forall k :: 0 <= k < n ==> !IsSpace(s[k])
    ensures n < |s| ==> IsSpace(s[n])
  {
    if s == [] || IsSpace(s[0]) then 0 else 1 + TokenLength(s[1..])
  }

  /** Python's str.split() with no argument: runs of whitespace separate
      tokens, and leading, trailing and repeated whitespace yields no empty token. */
  function Split(s: string): (r: seq<string>)
    ensures |r| <= |s|
    ensures s != [] && NoSpace(s) ==> r == [s]
    ensures (forall k :: 0 <= k < |s| ==> IsSpace(s[k])) ==> r == []
    decreases |s|
  {
    if s == [] then []
    else if IsSpace(s[0]) then
      assert forall k :: 0 <= k < |s[1..]| ==> s[1..][k] == s[k + 1];
      Split(s[1..])
    else
      var n := TokenLength(s);
      assert NoSpace(s) ==> n == |s| && s[..n] == s && s[n..] == [];
      [s[..n]] + Split(s[n..])
  }

  /** Every token of Split is non-empty and free of whitespace. */
  lemma {:induction false} SplitTokensWellFormed(s: string)
    ensures forall t :: t in Split(s) ==> t != [] && NoSpace(t)
    decreases |s|
  {
    if s == [] {
    } else if IsSpace(s[0]) {
      SplitTokensWellFormed(s[1..]);
    } else {
      var n := TokenLength(s);
      SplitTokensWellFormed(s[n..]);
    }
  }

  /** Concatenation of tokens, separated by single spaces. */
  function JoinSpaces(tokens: seq<string>): string {
    if tokens == [] then []
    else if |tokens| == 1 then tokens[0]
    else tokens[0] + " " + JoinSpaces(tokens[1..])
  }

  lemma {:induction false} TokenLengthOfPrefix(t: string, rest: string)
    requires t != [] && NoSpace(t)
    requires rest == [] || IsSpace(rest[0])
    ensures TokenLength(t + rest) == |t|
    decreases |t|
  {
    if |t| > 1 {
      assert (t + rest)[1..] == t[1..] + rest;
      TokenLengthOfPrefix(t[1..], rest);
    } else {
      assert (t + rest)[1..] == rest;
    }
  }

  /** Split inverts joining with single spaces: the tokens a template was
      written with are the tokens it is split into. */
  lemma {:induction false} SplitJoin(tokens: seq<string>)
    requires forall i :: 0 <= i < |tokens| ==> tokens[i] != [] && NoSpace(tokens[i])
    ensures Split(JoinSpaces(tokens)) == tokens
    decreases |tokens|
  {
    if tokens == [] {
    } else if |tokens| == 1 {
      assert JoinSpaces(tokens) == tokens[0];
    } else {
      var t := tokens[0];
      var rest := " " + JoinSpaces(tokens[1..]);
      var s := JoinSpaces(tokens);
      assert s == t + rest;
      TokenLengthOfPrefix(t, rest);
      assert s[..|t|] == t;
      assert s[|t|..] == rest;
      assert s[0] == t[0] && !IsSpace(s[0]);
      assert Split(s) == [t] + Split(rest);
      assert rest[1..] == JoinSpaces(tokens[1..]);
      assert IsSpace(rest[0]) && Split(rest) == Split(rest[1..]);
      SplitJoin(tokens[1..]);
    }
  }

  /** Whitespace before the first token is skipped, however many characters
      and of whatever kind. */
  lemma {:induction false} SplitSkipsSpace(w: string, s: string)
    requires forall k :: 0 <= k < |w| ==> IsSpace(w[k])
    ensures Split(w + s) == Split(s)
    decreases |w|
  {
    if w == [] {
      assert w + s == s;
    } else {
      assert (w + s)[0] == w[0];
      assert (w + s)[1..] == w[1..] + s;
      SplitSkipsSpace(w[1..], s);
    }
  }

  /** A token ends at the first whitespace character, or at the end. */
  lemma SplitTakesToken(t: string, s: string)
    requires t != [] && NoSpace(t)
    requires s == [] || IsSpace(s[0])
    ensures Split(t + s) == [t] + Split(s)
  {
    TokenLengthOfPrefix(t, s);
    assert (t + s)[0] == t[0];
    assert (t + s)[..|t|] == t;
    assert (t + s)[|t|..] == s;
  }

  /** `gaps[0] + tokens[0] + gaps[1] + ... + tokens[n-1] + gaps[n]`. */
  function Interleave(tokens: seq<string>, gaps: seq<string>): (s: string)
    requires |gaps| == |tokens| + 1
    ensures |gaps[0]| <= |s| && s[..|gaps[0]|] == gaps[0]
  {
    if tokens == [] then gaps[0]
    else gaps[0] + (tokens[0] + Interleave(tokens[1..], gaps[1..]))
  }

  /** Split inverts any interleaving of the tokens with whitespace: leading
      and trailing whitespace may be empty, the gaps between tokens are
      non-empty runs of any whitespace characters. */
  lemma {:induction false} SplitInterleaved(tokens: seq<string>, gaps: seq<string>)
    requires |gaps| == |tokens| + 1
    requires forall i :: 0 <= i < |tokens| ==> tokens[i] != [] && NoSpace(tokens[i])
    requires forall i, k :: 0 <= i < |gaps| && 0 <= k < |gaps[i]| ==> IsSpace(gaps[i][k])
    requires forall i :: 0 < i < |tokens| ==> gaps[i] != []
    ensures Split(Interleave(tokens, gaps)) == tokens
    decreases |tokens|
  {
    if tokens == [] {
      assert forall k :: 0 <= k < |gaps[0]| ==> IsSpace(gaps[0][k]);
    } else {
      var rest := Interleave(tokens[1..], gaps[1..]);
      assert forall k :: 0 <= k < |gaps[0]| ==> IsSpace(gaps[0][k]);
      SplitSkipsSpace(gaps[0], tokens[0] + rest);
      assert rest == [] || IsSpace(rest[0]) by {
        if gaps[1] != [] {
          assert rest[0] == rest[..|gaps[1]|][0] == gaps[1][0];
        } else {
          assert |tokens| == 1;
        }
      }
      SplitTakesToken(tokens[0], rest);
      SplitInterleaved(tokens[1..], gaps[1..]);
    }
  }

  /** Number of whitespace characters at the start of `s`. */
  function LeadingSpaces(s: string): (n: nat)
    ensures n <= |s|
    ensures forall k :: 0 <= k < n ==> IsSpace(s[k])
    ensures n < |s| ==> !IsSpace(s[n])
  {
    if s == [] || !IsSpace(s[0]) then 0 else 1 + LeadingSpaces(s[1..])
  }

  /** Index just past the last non-whitespace character of `s` (0 if none). */
  function TrimmedEnd(s: string): (n: nat)
    ensures n <= |s|
    ensures forall k :: n <= k < |s| ==> IsSpace(s[k])
    ensures n > 0 ==> !IsSpace(s[n - 1])
  {
    if s == [] || !IsSpace(s[|s| - 1]) then |s| else TrimmedEnd(s[..|s| - 1])
  }

  /** Python's str.strip() with no argument. */
  function Strip(s: string): (r: string)
    ensures r == [] || (!IsSpace(r[0]) && !IsSpace(r[|r| - 1]))
    ensures exists i, j ::
              && 0 <= i <= j <= |s| && r == s[i..j]
              && (forall k :: 0 <= k < i ==> IsSpace(s[k]))
              && (forall k :: j <= k < |s| ==> IsSpace(s[k]))
  {
    var i := LeadingSpaces(s);
    if i == |s| then
      assert s[i..i] == [];
      []
    else
      var j := TrimmedEnd(s);
      assert j > i;
      s[i..j]
  }

  /** Index of the last path separator ('\' or '/') in `p`, or -1. */
  function SepIndex(p: string): (r: int)
    ensures -1 <= r < |p|
  {
    var b := LastIndexOf(p, '\\');
    var f := LastIndexOf(p, '/');
    if b < f then f else b
  }

  predicate IsPathChar(c: char) {
    c == '.' || c == '\\' || c == '/'
  }

  /** Some character of p[lo..hi] is not a dot. */
  predicate HasNonDot(p: string, lo: int, hi: int)
    requires 0 <= lo && hi <= |p|
  {
    exists k :: lo <= k < hi && p[k] != '.'
  }

  /** Windows os.path.splitext (ntpath, which cuts the last component only at
      '\' and '/'): the extension runs from the last dot of the last path
      component, unless everything before that dot in the component is a dot. */
  function Splitext(p: string): (r: (string, string))
    ensures r.0 + r.1 == p
    ensures r.1 == [] || (r.1[0] == '.' && forall k :: 1 <= k < |r.1| ==> !IsPathChar(r.1[k]))
  {
    var sep := SepIndex(p);
    var dot := LastIndexOf(p, '.');
    if dot > sep && HasNonDot(p, sep + 1, dot) then
      assert p[..dot] + p[dot..] == p;
      (p[..dot], p[dot..])
    else
      assert p + [] == p;
      (p, [])
  }

  function Ext(p: string): string {
    Splitext(p).1
  }

  /** The last component of a path: no separator in it, and either nothing
      or a separator before it. */
  predicate IsFinalComponent(dir: string, comp: string) {
    && (dir == [] || dir[|dir| - 1] == '\\' || dir[|dir| - 1] == '/')
    && forall k :: 0 <= k < |comp| ==> comp[k] != '\\' && comp[k] != '/'
  }

  /** The last occurrence of `c` in `a + b`: in `b` if `b` holds one, else in `a`. */
  lemma {:induction false} LastIndexOfAppend(a: string, b: string, c: char)
    ensures LastIndexOf(b, c) != -1 ==> LastIndexOf(a + b, c) == |a| + LastIndexOf(b, c)
    ensures LastIndexOf(b, c) == -1 ==> LastIndexOf(a + b, c) == LastIndexOf(a, c)
    decreases |b|
  {
    if b == [] {
      assert a + b == a;
    } else if b[|b| - 1] != c {
      var front := b[..|b| - 1];
      assert (a + b)[..|a + b| - 1] == a + front;
      LastIndexOfAppend(a, front, c);
    }
  }

  /** An occurrence of `c` with none after it is the last one. */
  lemma LastIndexOfAt(s: string, c: char, i: nat)
    requires i < |s| && s[i] == c
    requires forall k :: i < k < |s| ==> s[k] != c
    ensures LastIndexOf(s, c) == i
  {
  }

  /** The separator before the final component is the last one. */
  lemma SepIndexOfComponent(dir: string, comp: string)
    requires IsFinalComponent(dir, comp)
    ensures SepIndex(dir + comp) == |dir| - 1
  {
    LastIndexOfAppend(dir, comp, '\\');
    LastIndexOfAppend(dir, comp, '/');
    if dir != [] {
      assert LastIndexOf(dir, '\\') == |dir| - 1 || LastIndexOf(dir, '/') == |dir| - 1;
    }
  }

  /** The extension, stated for any path: the suffix of the final component
      from its last dot when something other than a dot precedes that dot in
      the component, and nothing otherwise (no dot, or only leading dots). */
  lemma ExtOfComponent(dir: string, comp: string)
    requires IsFinalComponent(dir, comp)
    ensures var d := LastIndexOf(comp, '.');
            d != -1 && HasNonDot(comp, 0, d) ==> Ext(dir + comp) == comp[d..]
    ensures var d := LastIndexOf(comp, '.');
            !(d != -1 && HasNonDot(comp, 0, d)) ==> Ext(dir + comp) == []
  {
    var p := dir + comp;
    var n := |dir|;
    SepIndexOfComponent(dir, comp);
    LastIndexOfAppend(dir, comp, '.');
    var d := LastIndexOf(comp, '.');
    if d != -1 {
      if HasNonDot(comp, 0, d) {
        var k :| 0 <= k < d && comp[k] != '.';
        assert p[n + k] == comp[k];
        assert HasNonDot(p, n, n + d);
        assert p[n + d..] == comp[d..];
      }
    }
  }

  /** A file name that does not start with a dot, followed by a dot and a
      dot-free extension, has that extension; dots earlier in the name do
      not count. */
  lemma ExtOfName(name: string, ext: string)
    requires name != [] && name[0] != '.'
    requires forall k :: 0 <= k < |name| ==> name[k] != '\\' && name[k] != '/'
    requires forall k :: 0 <= k < |ext| ==> !IsPathChar(ext[k])
    ensures Ext(name + "." + ext) == "." + ext
  {
    var p := name + "." + ext;
    var d := |name|;
    assert p[d] == '.';
    assert forall k :: 0 <= k < d ==> p[k] == name[k];
    assert forall k :: d < k < |p| ==> p[k] == ext[k - d - 1];
    assert LastIndexOf(p, '.') == d;
    assert LastIndexOf(p, '\\') == -1 && LastIndexOf(p, '/') == -1;
    assert p[0] == name[0];
    assert HasNonDot(p, 0, d);
    assert p[d..] == "." + ext;
  }

  /** Bare file names: the extension keeps its case, and only the last dot
      counts. */
  lemma ExtOfBareNames()
    ensures Ext("notes.TXT") == ".TXT"
    ensures Ext("a.tar.gz") == ".gz"
  {
    ExtOfName("notes", "TXT");
    assert "notes" + "." + "TXT" == "notes.TXT";
    ExtOfName("a.tar", "gz");
    assert "a.tar" + "." + "gz" == "a.tar.gz";
  }

  /** A final component of leading dots and a name has no extension. */
  lemma ExtIgnoresLeadingDots()
    ensures Ext("d/..x") == []
  {
    var c := "..x";
    LastIndexOfAt(c, '.', 1);
    assert !HasNonDot(c, 0, 1);
    ExtOfComponent("d/", c);
    assert "d/" + c == "d/..x";
  }

  /** A path ending in a separator, a name that starts with something other
      than a dot, and a dot-extension has exactly that extension. */
  lemma ExtOfFileName(dir: string, sep: char, name: string, ext: string)
    requires sep == '\\' || sep == '/'
    requires name != [] && forall k :: 0 <= k < |name| ==> !IsPathChar(name[k])
    requires forall k :: 0 <= k < |ext| ==> !IsPathChar(ext[k])
    ensures Ext(dir + [sep] + name + "." + ext) == "." + ext
  {
    var p := dir + [sep] + name + "." + ext;
    var d := |dir| + 1 + |name|;
    assert p[d] == '.';
    assert forall k :: d < k < |p| ==> p[k] == ext[k - d - 1];
    assert LastIndexOf(p, '.') == d;
    assert forall k :: |dir| < k < |p| ==> !IsPathChar(p[k]) || k == d;
    assert p[|dir|] == sep;
    assert SepIndex(p) == |dir|;
    assert p[|dir| + 1] == name[0];
    assert HasNonDot(p, |dir| + 1, d);
    assert p[d..] == "." + ext;
  }

  /** A last component made of a dot and a name (a "dot file") has no extension. */
  lemma DotFileHasNoExt(dir: string, sep: char, name: string)
    requires sep == '\\' || sep == '/'
    requires forall k :: 0 <= k < |name| ==> !IsPathChar(name[k])
    ensures Ext(dir + [sep] + "." + name) == []
  {
    var p := dir + [sep] + "." + name;
    var d := |dir| + 1;
    assert p[d] == '.';
    assert forall k :: d < k < |p| ==> p[k] == name[k - d - 1];
    assert LastIndexOf(p, '.') == d;
    assert p[|dir|] == sep;
    assert SepIndex(p) == |dir|;
    assert !HasNonDot(p, |dir| + 1, d);
  }

  /** A string without a dot has no extension; so the empty string has none. */
  lemma NoDotNoExt(p: string)
    requires forall k :: 0 <= k < |p| ==> p[k] != '.'
    ensures Ext(p) == []
  {
  }
}
