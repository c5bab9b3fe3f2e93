/** Python's `re` engine, left abstract: only what the matchers ask of it. */
module Regex {
  import opened Wrappers

  /** A regular-expression engine, given as three total functions.
      `compiles(p)`: `p` compiles without `re.error`.
      `search(p, t)`: the groups tuple `m.groups()` of `re.search(p, t)`, one
      entry per capture group (None for a group that did not take part), or
      None when there is no match.
      `fullMatch(p, t)`: `re.fullmatch(p, t)` is not None. */
  datatype Engine = Engine(
    compiles: string -> bool,
    search: (string, string) -> Option<seq<Option<string>>>,
    fullMatch: (string, string) -> bool)
}
