/** JSON values as `json.load` returns them, the abstract parse/serialise pair
    that stands for `json.load`/`json.dump`, and the rule triples the matchers
    iterate over. */
module Json {
  import opened Wrappers

  datatype Json =
    | Null
    | Bool(b: bool)
    | Num(n: int)
    | Str(s: string)
    | Arr(items: seq<Json>)
    | Obj(members: seq<(string, Json)>)

  /** `parse(c)` is None exactly when `json.load` raises JSONDecodeError on
      file contents `c`; `dump(v)` is what `json.dump(v, f, ...)` writes. */
  datatype Codec = Codec(parse: string -> Option<Json>, dump: Json -> string)

  /** Loading what was dumped gives the value back, for this one value. */
  predicate RoundTrips(codec: Codec, v: Json) {
    codec.parse(codec.dump(v)) == Some(v)
  }

  /** One configuration entry `[path, fmt, arg_fmt]`. */
  datatype Rule = Rule(path: string, fmt: string, argFmt: string)

  predicate IsRuleEntry(v: Json) {
    v.Arr? && |v.items| == 3 && v.items[0].Str? && v.items[1].Str? && v.items[2].Str?
  }

  function EntryRule(v: Json): Rule
    requires IsRuleEntry(v)
  {
    Rule(v.items[0].s, v.items[1].s, v.items[2].s)
  }

  function RulesOf(entries: seq<Json>): (r: Option<seq<Rule>>)
    ensures r.Some? <==> forall i :: 0 <= i < |entries| ==> IsRuleEntry(entries[i])
    ensures r.Some? ==> |r.value| == |entries|
    ensures r.Some? ==> forall i :: 0 <= i < |entries| ==> r.value[i] == EntryRule(entries[i])
  {
    if entries == [] then Some([])
    else if !IsRuleEntry(entries[0]) then None
    else match RulesOf(entries[1..])
      case None => None
      case Some(rest) => Some([EntryRule(entries[0])] + rest)
  }

  /** The rules of a configuration that is a list of string triples, and
      None for any other JSON value. */
  function AsRules(conf: Json): (r: Option<seq<Rule>>)
    ensures r.Some? <==> conf.Arr? && forall i :: 0 <= i < |conf.items| ==> IsRuleEntry(conf.items[i])
  {
    if conf.Arr? then RulesOf(conf.items) else None
  }
}
