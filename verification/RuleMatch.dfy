/**
  Rule matching. The rules are compiled into two arrays, one of matchers and one of time windows, from which
  rules of an unknown type are missing; a request is matched by walking both. That is proved to be the first
  rule of the list that applies, each rule read on its own. The parsers of addresses and numbers are given
  as functions.
 */
module RuleMatch {
  import opened Basics
  import opened Masks
  import GroupOutcomes
  import GroupSearch
  import ProxyGroups
  import RuleStore

  /** `ip` is an IPv4 address written as text or nothing, `number` an integer or nothing. */
  datatype Parsers = Parsers(ip: string -> Option<bv32>, number: string -> Option<int>)

  /** Minutes since midnight; (0, 0) stands for always. */
  datatype TimeRange = TimeRange(start: int, end: int) {
    predicate Matches(now: int) {
      if start == 0 && end == 0 then true
      else if start <= end then start <= now < end
      else start <= now || now < end
    }
  }

  const ALWAYS := TimeRange(0, 0)

  /** On the clock face: `now` is within `end - start` minutes after `start`, going forward past midnight. */
  lemma WindowIsCircular(tr: TimeRange, now: int)
    requires 0 <= tr.start < 1440 && 0 <= tr.end < 1440 && 0 <= now < 1440
    ensures tr.Matches(now) <==> tr == ALWAYS || (now - tr.start) % 1440 < (tr.end - tr.start) % 1440
  {
    Wrap(now, tr.start);
    Wrap(tr.end, tr.start);
  }

  lemma Wrap(x: int, y: int)
    requires 0 <= x < 1440 && 0 <= y < 1440
    ensures (x - y) % 1440 == if x >= y then x - y else x - y + 1440
  {
  }

  datatype Rule = Rule(kind: string, pattern: string, proxyName: string, mappingName: string, window: Option<TimeRange>)

  function Window(r: Rule): TimeRange {
    if r.window.Some? then r.window.value else ALWAYS
  }

  // ---------------------------------------------------------------- what a rule says

  predicate EndsWith(s: string, suffix: string) {
    |suffix| <= |s| && s[|s| - |suffix|..] == suffix
  }

  function Find(s: string, c: char): (k: nat)
    ensures k <= |s| && (k < |s| ==> s[k] == c)
    ensures forall i :: 0 <= i < k ==> s[i] != c
  {
    if s == "" || s[0] == c then 0 else 1 + Find(s[1..], c)
  }

  /** The network and length of "address/length"; anything else stands for the single address 0.0.0.0. */
  function ParseCidr(p: Parsers, cidr: string): (r: (bv32, nat))
    ensures r.1 <= 32
  {
    var nowhere: (bv32, nat) := (0, 32);
    var slash := Find(cidr, '/');
    if slash == |cidr| then nowhere
    else
      var len := p.number(cidr[slash + 1..]);
      if len.None? || len.value < 0 || len.value > 32 then nowhere
      else
        var network := NumberOf(p, cidr[..slash]);
        if network == 0 && cidr[..slash] != "0.0.0.0" then nowhere else (network, len.value)
  }

  /** The number of an address, 0 for a text that is none. */
  function NumberOf(p: Parsers, addr: string): bv32 {
    if p.ip(addr).Some? then p.ip(addr).value else 0
  }

  /** The leading bits of the address are those of the network. */
  predicate InNetwork(p: Parsers, cidr: string, dst: string) {
    var ip := p.ip(dst);
    var (network, len) := ParseCidr(p, cidr);
    ip.Some? && Top(ip.value, Spare(len)) == Top(network, Spare(len))
  }

  /** The texts of an address and a length that make a network. */
  predicate IsCidr(p: Parsers, addr: string, len: string) {
    && p.number(len).Some? && 0 <= p.number(len).value <= 32
    && (NumberOf(p, addr) != 0 || addr == "0.0.0.0")
  }

  /** "addr/len" covers the addresses that share its first len bits; a malformed one covers 0.0.0.0 and
      nothing else. */
  lemma CidrMeaning(p: Parsers, addr: string, len: string, dst: string)
    requires '/' !in addr
    ensures InNetwork(p, addr + "/" + len, dst) <==>
            p.ip(dst).Some? &&
            if IsCidr(p, addr, len) then
              Top(p.ip(dst).value, Spare(p.number(len).value)) == Top(NumberOf(p, addr), Spare(p.number(len).value))
            else p.ip(dst).value == 0
  {
    var cidr := addr + "/" + len;
    assert cidr[|addr|] == '/' && Find(cidr, '/') == |addr|;
    assert cidr[..|addr|] == addr && cidr[|addr| + 1..] == len;
    WholeIsTop(0);
    WholeIsTop(NumberOf(p, dst));
  }

  lemma NoSlashMeaning(p: Parsers, cidr: string, dst: string)
    requires '/' !in cidr
    ensures InNetwork(p, cidr, dst) <==> p.ip(dst) == Some(0)
  {
    assert Find(cidr, '/') == |cidr|;
    WholeIsTop(0);
    WholeIsTop(NumberOf(p, dst));
  }

  predicate Covers(p: Parsers, r: Rule, dst: string) {
    if r.kind == "DOMAIN-SUFFIX" then EndsWith(dst, r.pattern)
    else if r.kind == "IP-CIDR" then InNetwork(p, r.pattern, dst)
    else r.kind == "MATCH"
  }

  predicate For(mappingName: string, mapping: Option<string>) {
    mappingName == "" || mapping == Some(mappingName)
  }

  predicate Applies(p: Parsers, r: Rule, dst: string, mapping: Option<string>, now: int) {
    r.proxyName != "" && Window(r).Matches(now) && For(r.mappingName, mapping) && Covers(p, r, dst)
  }

  predicate InWindow(window: Option<TimeRange>, now: int) {
    window.None? || window.value.Matches(now)
  }

  /** A suffix rule wins the destinations that end in its pattern, a rule for everything wins them all; both
      only in their window, for their mapping if they name one, and with a proxy to go to. */
  lemma RuleMeaning(p: Parsers, pattern: string, proxyName: string, mappingName: string, window: Option<TimeRange>,
                    dst: string, mapping: Option<string>, now: int)
    ensures var open := proxyName != "" && InWindow(window, now) && (mapping == None ==> mappingName == "") &&
                       (mapping.Some? ==> mappingName in {"", mapping.value});
            && (Applies(p, Rule("DOMAIN-SUFFIX", pattern, proxyName, mappingName, window), dst, mapping, now) <==>
                open && exists head :: dst == head + pattern)
            && (Applies(p, Rule("MATCH", pattern, proxyName, mappingName, window), dst, mapping, now) <==> open)
            && (Applies(p, Rule("IP-CIDR", pattern, proxyName, mappingName, window), dst, mapping, now) <==>
                open && InNetwork(p, pattern, dst))
  {
    if EndsWith(dst, pattern) {
      assert dst == dst[..|dst| - |pattern|] + pattern;
    }
    forall head | dst == head + pattern ensures EndsWith(dst, pattern) { }
  }

  ghost predicate IsFirst(p: Parsers, rules: seq<Rule>, dst: string, mapping: Option<string>, now: int, i: nat) {
    && i < |rules| && Applies(p, rules[i], dst, mapping, now)
    && forall j :: 0 <= j < i ==> !Applies(p, rules[j], dst, mapping, now)
  }

  /** The first rule that applies. */
  function FirstRule(p: Parsers, rules: seq<Rule>, dst: string, mapping: Option<string>, now: int): Option<Rule> {
    if rules == [] then None
    else if Applies(p, rules[0], dst, mapping, now) then Some(rules[0])
    else FirstRule(p, rules[1..], dst, mapping, now)
  }

  lemma {:induction false} FirstRuleIsFirst(p: Parsers, rules: seq<Rule>, dst: string, mapping: Option<string>,
                                            now: int, i: nat)
    requires i < |rules|
    ensures IsFirst(p, rules, dst, mapping, now, i) ==> FirstRule(p, rules, dst, mapping, now) == Some(rules[i])
    ensures Applies(p, rules[i], dst, mapping, now) ==> FirstRule(p, rules, dst, mapping, now).Some?
    decreases |rules|
  {
    if i > 0 {
      var rest := rules[1..];
      assert forall j :: 0 <= j < |rest| ==> rest[j] == rules[j + 1];
      FirstRuleIsFirst(p, rest, dst, mapping, now, i - 1);
    }
  }

  lemma {:induction false} FirstRuleApplies(p: Parsers, rules: seq<Rule>, dst: string, mapping: Option<string>,
                                            now: int) returns (i: nat)
    requires FirstRule(p, rules, dst, mapping, now).Some?
    ensures IsFirst(p, rules, dst, mapping, now, i) && FirstRule(p, rules, dst, mapping, now) == Some(rules[i])
    decreases |rules|
  {
    if Applies(p, rules[0], dst, mapping, now) {
      i := 0;
    } else {
      var rest := rules[1..];
      assert forall j :: 0 <= j < |rest| ==> rest[j] == rules[j + 1];
      var k := FirstRuleApplies(p, rest, dst, mapping, now);
      i := k + 1;
    }
  }

  lemma {:induction false} FirstOfTwo(p: Parsers, xs: seq<Rule>, ys: seq<Rule>, dst: string, mapping: Option<string>,
                                      now: int)
    ensures FirstRule(p, xs + ys, dst, mapping, now) ==
            if FirstRule(p, xs, dst, mapping, now).Some? then FirstRule(p, xs, dst, mapping, now)
            else FirstRule(p, ys, dst, mapping, now)
    decreases |xs|
  {
    if xs == [] {
      assert xs + ys == ys;
    } else {
      assert (xs + ys)[1..] == xs[1..] + ys;
      FirstOfTwo(p, xs[1..], ys, dst, mapping, now);
    }
  }

  /** A rule placed in the list takes over exactly the requests that it covers and no rule before it does. */
  lemma PlacedRuleTakesOver(p: Parsers, rules: seq<Rule>, k: nat, r: Rule, dst: string, mapping: Option<string>,
                            now: int)
    requires k <= |rules|
    ensures FirstRule(p, RuleStore.Place(rules, k, r), dst, mapping, now) ==
            if FirstRule(p, rules[..k], dst, mapping, now).None? && Applies(p, r, dst, mapping, now) then Some(r)
            else FirstRule(p, rules, dst, mapping, now)
  {
    assert rules == rules[..k] + rules[k..];
    assert RuleStore.Place(rules, k, r) == rules[..k] + ([r] + rules[k..]);
    FirstOfTwo(p, rules[..k], [r] + rules[k..], dst, mapping, now);
    FirstOfTwo(p, [r], rules[k..], dst, mapping, now);
    FirstOfTwo(p, rules[..k], rules[k..], dst, mapping, now);
  }

  /** The rules of a stored list, without the texts that do not parse. */
  function Parsed(parse: string -> Option<Rule>, list: seq<RuleStore.RuleWithID>): seq<Rule> {
    if list == [] then []
    else
      var r := parse(list[|list| - 1].rule);
      Parsed(parse, list[..|list| - 1]) + if r.Some? then [r.value] else []
  }

  lemma {:induction false} ParsedAppend(parse: string -> Option<Rule>, xs: seq<RuleStore.RuleWithID>,
                                        ys: seq<RuleStore.RuleWithID>)
    ensures Parsed(parse, xs + ys) == Parsed(parse, xs) + Parsed(parse, ys)
    decreases |ys|
  {
    if ys == [] {
      assert xs + ys == xs;
    } else {
      assert (xs + ys)[..|xs + ys| - 1] == xs + ys[..|ys| - 1];
      ParsedAppend(parse, xs, ys[..|ys| - 1]);
    }
  }

  lemma ParsedPlaced(parse: string -> Option<Rule>, list: seq<RuleStore.RuleWithID>, k: nat, x: RuleStore.RuleWithID)
    requires k <= |list| && parse(x.rule).Some?
    ensures Parsed(parse, list) == Parsed(parse, list[..k]) + Parsed(parse, list[k..])
    ensures Parsed(parse, RuleStore.Place(list, k, x)) ==
            RuleStore.Place(Parsed(parse, list), |Parsed(parse, list[..k])|, parse(x.rule).value)
  {
    var before, after := list[..k], list[k..];
    assert list == before + after;
    ParsedAppend(parse, before, after);
    ParsedAppend(parse, before + [x], after);
    ParsedAppend(parse, before, [x]);
    assert Parsed(parse, [x]) == [parse(x.rule).value];
  }

  /** A rule inserted into the store takes over exactly the requests that it covers and that no rule shown
      before it, up to its anchor, covers. All other requests go where they went. */
  lemma InsertedRuleTakesOver(parse: string -> Option<Rule>, p: Parsers, s: RuleStore.Store, text: string,
                              after: Option<nat>, before: seq<RuleStore.RuleWithID>,
                              rest: seq<RuleStore.RuleWithID>, dst: string, mapping: Option<string>, now: int)
    requires RuleStore.Sound(s) && parse(text).Some? && RuleStore.Parts(RuleStore.Shown(s), after, before, rest)
    ensures RuleStore.Step(s, RuleStore.Insert(text, after)).Some?
    ensures var t := RuleStore.Step(s, RuleStore.Insert(text, after)).value;
            FirstRule(p, Parsed(parse, RuleStore.Shown(t)), dst, mapping, now) ==
            if FirstRule(p, Parsed(parse, before), dst, mapping, now).None? &&
               Applies(p, parse(text).value, dst, mapping, now)
            then parse(text)
            else FirstRule(p, Parsed(parse, RuleStore.Shown(s)), dst, mapping, now)
  {
    RuleStore.InsertLands(s, text, after, before, rest);
    var list, x := RuleStore.Shown(s), RuleStore.RuleWithID(s.nextId, text);
    assert list[..|before|] == before && list[|before|..] == rest;
    ParsedPlaced(parse, list, |before|, x);
    assert RuleStore.Place(list, |before|, x) == before + [x] + rest;
    var all, first := Parsed(parse, list), Parsed(parse, before);
    assert all[..|first|] == first;
    PlacedRuleTakesOver(p, all, |first|, parse(text).value, dst, mapping, now);
  }

  function Others(rules: seq<Rule>, proxyName: string): seq<Rule> {
    if rules == [] then []
    else Others(rules[..|rules| - 1], proxyName) +
         if rules[|rules| - 1].proxyName != proxyName then [rules[|rules| - 1]] else []
  }

  /** Removing the rules of one proxy leaves every request that another rule won to that rule. */
  lemma {:induction false} OthersKeepTheirRequests(p: Parsers, rules: seq<Rule>, proxyName: string, dst: string,
                                                   mapping: Option<string>, now: int)
    ensures var first := FirstRule(p, Others(rules, proxyName), dst, mapping, now);
            && (first.Some? ==> first.value.proxyName != proxyName)
            && (FirstRule(p, rules, dst, mapping, now).None? ==> first.None?)
            && (FirstRule(p, rules, dst, mapping, now).Some? &&
                FirstRule(p, rules, dst, mapping, now).value.proxyName != proxyName ==>
                  first == FirstRule(p, rules, dst, mapping, now))
    decreases |rules|
  {
    if rules != [] {
      var front, last := rules[..|rules| - 1], rules[|rules| - 1];
      OthersKeepTheirRequests(p, front, proxyName, dst, mapping, now);
      assert rules == front + [last];
      FirstOfTwo(p, front, [last], dst, mapping, now);
      if last.proxyName != proxyName {
        FirstOfTwo(p, Others(front, proxyName), [last], dst, mapping, now);
      } else {
        assert Others(rules, proxyName) == Others(front, proxyName);
      }
    }
  }

  // ---------------------------------------------------------------- the compiled form

  datatype Matcher =
    | Suffix(proxyName: string, mappingName: string, suffix: string)
    | Cidr(proxyName: string, mappingName: string, network: bv32, mask: bv32)
    | All(proxyName: string, mappingName: string)

  predicate Known(r: Rule) {
    r.kind == "DOMAIN-SUFFIX" || r.kind == "IP-CIDR" || r.kind == "MATCH"
  }

  function Compile(p: Parsers, r: Rule): Matcher
    requires Known(r)
  {
    if r.kind == "DOMAIN-SUFFIX" then Suffix(r.proxyName, r.mappingName, r.pattern)
    else if r.kind == "IP-CIDR" then
      var (network, len) := ParseCidr(p, r.pattern);
      Cidr(r.proxyName, r.mappingName, network, Mask(Spare(len)))
    else All(r.proxyName, r.mappingName)
  }

  predicate Hits(p: Parsers, m: Matcher, dst: string) {
    match m
    case Suffix(_, _, suffix) => EndsWith(dst, suffix)
    case Cidr(_, _, network, mask) => p.ip(dst).Some? && Masked(p.ip(dst).value, mask) == Masked(network, mask)
    case All(_, _) => true
  }

  /** The proxy name, or nothing as the empty name. */
  function RunMatcher(p: Parsers, m: Matcher, dst: string, mapping: Option<string>): string {
    if Hits(p, m, dst) && For(m.mappingName, mapping) then m.proxyName else ""
  }

  lemma CompiledMeansRule(p: Parsers, r: Rule, dst: string, mapping: Option<string>, now: int)
    requires Known(r)
    ensures Applies(p, r, dst, mapping, now) <==>
            Window(r).Matches(now) && RunMatcher(p, Compile(p, r), dst, mapping) != ""
    ensures RunMatcher(p, Compile(p, r), dst, mapping) in {"", r.proxyName}
  {
    var (network, len) := ParseCidr(p, r.pattern);
    MaskComparesTop(NumberOf(p, dst), network, Spare(len));
  }

  /** The rules that the compiled arrays stand for, in order. */
  function KnownRules(rules: seq<Rule>): (known: seq<Rule>)
    ensures forall i :: 0 <= i < |known| ==> Known(known[i])
  {
    if rules == [] then []
    else KnownRules(rules[..|rules| - 1]) + if Known(rules[|rules| - 1]) then [rules[|rules| - 1]] else []
  }

  lemma {:induction false} UnknownRulesNeverApply(p: Parsers, rules: seq<Rule>, dst: string, mapping: Option<string>,
                                                  now: int)
    ensures FirstRule(p, KnownRules(rules), dst, mapping, now) == FirstRule(p, rules, dst, mapping, now)
    decreases |rules|
  {
    if rules != [] {
      var front, last := rules[..|rules| - 1], rules[|rules| - 1];
      UnknownRulesNeverApply(p, front, dst, mapping, now);
      assert rules == front + [last];
      FirstOfTwo(p, front, [last], dst, mapping, now);
      if Known(last) {
        FirstOfTwo(p, KnownRules(front), [last], dst, mapping, now);
      } else {
        UnknownNeverApplies(p, last, dst, mapping, now);
        assert KnownRules(rules) == KnownRules(front);
      }
    }
  }

  lemma UnknownNeverApplies(p: Parsers, r: Rule, dst: string, mapping: Option<string>, now: int)
    requires !Known(r)
    ensures FirstRule(p, [r], dst, mapping, now) == None
  {
    assert !Applies(p, r, dst, mapping, now);
  }

  /** Entry by entry, both arrays belong to the same rule. */
  ghost predicate Aligned(p: Parsers, known: seq<Rule>, matchers: seq<Matcher>, windows: seq<TimeRange>)
    requires forall i :: 0 <= i < |known| ==> Known(known[i])
  {
    && |matchers| == |known| && |windows| == |known|
    && forall i :: 0 <= i < |known| ==> matchers[i] == Compile(p, known[i]) && windows[i] == Window(known[i])
  }

  datatype Result = NoMatch | Match(proxyName: string, mapping: string, window: TimeRange)

  function ResultOf(rule: Option<Rule>, mapping: Option<string>): Result {
    if rule.None? then NoMatch
    else Match(rule.value.proxyName, if mapping.Some? then mapping.value else "", Window(rule.value))
  }

  class RuleMatcher {
    const parsers: Parsers
    var rules: seq<Rule>
    var matchers: seq<Matcher>
    var matcherTimeRanges: seq<TimeRange>

    ghost predicate Valid()
      reads this
    {
      Aligned(parsers, KnownRules(rules), matchers, matcherTimeRanges)
    }

    constructor (parsers: Parsers, rules: seq<Rule>)
      ensures Valid() && this.parsers == parsers && this.rules == rules
    {
      this.parsers, this.rules := parsers, rules;
      new;
      BuildMatchers();
    }

    method BuildMatchers()
      modifies this`matchers, this`matcherTimeRanges
      ensures Valid()
    {
      matchers, matcherTimeRanges := [], [];
      for i := 0 to |rules|
        invariant Aligned(parsers, KnownRules(rules[..i]), matchers, matcherTimeRanges)
      {
        assert rules[..i + 1][..i] == rules[..i];
        if Known(rules[i]) {
          matchers := matchers + [Compile(parsers, rules[i])];
          matcherTimeRanges := matcherTimeRanges + [Window(rules[i])];
        }
      }
      assert rules[..|rules|] == rules;
    }

    /** The new rule comes first. */
    method AddRule(rule: Rule)
      requires Valid()
      modifies this
      ensures Valid() && rules == [rule] + old(rules)
    {
      rules := [rule] + rules;
      BuildMatchers();
    }

    method RemoveRule(proxyName: string)
      requires Valid()
      modifies this
      ensures Valid() && rules == Others(old(rules), proxyName)
    {
      var kept := [];
      for i := 0 to |rules|
        invariant rules == old(rules) && kept == Others(rules[..i], proxyName)
      {
        assert rules[..i + 1][..i] == rules[..i];
        if rules[i].proxyName != proxyName { kept := kept + [rules[i]]; }
      }
      assert rules[..|rules|] == rules;
      rules := kept;
      BuildMatchers();
    }

    /** The walk over the two arrays finds the first rule of the list that applies. */
    method MatchRequest(dst: string, mapping: Option<string>, now: int) returns (r: Result)
      requires Valid()
      ensures r == ResultOf(FirstRule(parsers, rules, dst, mapping, now), mapping)
      ensures match FirstRule(parsers, rules, dst, mapping, now)
              case None => r.NoMatch?
              case Some(rule) => r.Match? && r.proxyName == rule.proxyName &&
                                 r.mapping == (if mapping.Some? then mapping.value else "") &&
                                 r.window == (if rule.window.Some? then rule.window.value else TimeRange(0, 0))
    {
      ghost var known := KnownRules(rules);
      UnknownRulesNeverApply(parsers, rules, dst, mapping, now);
      for i := 0 to |matchers|
        invariant FirstRule(parsers, known, dst, mapping, now) == FirstRule(parsers, known[i..], dst, mapping, now)
      {
        assert known[i..][1..] == known[i + 1..];
        CompiledMeansRule(parsers, known[i], dst, mapping, now);
        if i < |matcherTimeRanges| && !matcherTimeRanges[i].Matches(now) { continue; }
        var proxyName := RunMatcher(parsers, matchers[i], dst, mapping);
        if proxyName == "" { continue; }
        var name := if mapping.Some? then mapping.value else "";
        return Match(proxyName, name, if i < |matcherTimeRanges| then matcherTimeRanges[i] else ALWAYS);
      }
      return NoMatch;
    }

    /** A matched rule comes with what its proxy name stands for. */
    method Resolve(reg: GroupSearch.Registry, dst: string, mapping: Option<string>, now: int,
                   ghost s: ProxyGroups.Snapshot)
      returns (p: ProxyGroups.Proxy?, r: Result)
      requires Valid() && GroupSearch.Shows(reg, s) && ProxyGroups.WellFormed(s)
      modifies reg.groups.Values`idx
      ensures GroupSearch.Shows(reg, s)
      ensures r == ResultOf(FirstRule(parsers, rules, dst, mapping, now), mapping)
      ensures if r.Match? then GroupOutcomes.StandsFor(s, r.proxyName, p) else p == null
    {
      r := MatchRequest(dst, mapping, now);
      p := null;
      if r.Match? { p := GroupSearch.ResolveName(reg, r.proxyName, s); }
    }
  }
}
