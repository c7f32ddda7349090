/** The server pod's policy routing: ensureRouting and ensureRule in internal/datapath/routing_linux.go, over the
    kernel's ordered rule list. A rule is the four fields ruleMatches compares. */
module PolicyRouting {
  import opened Sequences
  import opened Ipv4

  datatype Rule = Rule(prio: nat, table: nat, dst: Option<Prefix>, iif: Option<string>)

  const PEER_TABLE := 51821
  const PEER_PREF := 90
  const BLACKHOLE_TABLE := 51822
  const BLACKHOLE_PREF := 102
  const WG := "wg0"

  function PeerRule(p: Prefix): Rule {
    Rule(PEER_PREF, PEER_TABLE, Some(p), None)
  }

  const BLACKHOLE_RULE := Rule(BLACKHOLE_PREF, BLACKHOLE_TABLE, None, Some(WG))

  // ---- the kernel's rule list ----

  /** x has every field the delete request r names; no destination and no interface name nothing. */
  predicate Covers(r: Rule, x: Rule) {
    x.prio == r.prio && x.table == r.table && (r.dst.None? || x.dst == r.dst) && (r.iif.None? || x.iif == r.iif)
  }

  /** RuleDel: the first rule the request covers goes; none is an error. */
  function RuleDel(rules: seq<Rule>, r: Rule): Option<seq<Rule>> {
    if rules == [] then None
    else if Covers(r, rules[0]) then Some(rules[1..])
    else match RuleDel(rules[1..], r) case None => None case Some(rest) => Some([rules[0]] + rest)
  }

  /** RuleAdd: after every rule of the same or a lower priority number. */
  function RuleAdd(rules: seq<Rule>, r: Rule): seq<Rule> {
    if rules == [] || rules[0].prio > r.prio then [r] + rules else [rules[0]] + RuleAdd(rules[1..], r)
  }

  ghost predicate Ordered(rules: seq<Rule>) {
    forall i, j :: 0 <= i < j < |rules| ==> rules[i].prio <= rules[j].prio
  }

  // ---- ensureRule ----

  datatype Sweep = Sweep(rules: seq<Rule>, found: bool, ok: bool)

  /** The list after one listed rule has been looked at. */
  function Look(s: Sweep, r: Rule, want: Rule): Sweep {
    if !s.ok || r.prio != want.prio then s
    else if r == want then s.(found := true)
    else match RuleDel(s.rules, r)
      case None => s.(ok := false)
      case Some(rest) => s.(rules := rest)
  }

  function SweepAll(rules: seq<Rule>, have: seq<Rule>, want: Rule): Sweep {
    if have == [] then Sweep(rules, false, true)
    else Look(SweepAll(rules, have[..|have| - 1], want), have[|have| - 1], want)
  }

  /** The rules and the verdict ensureRule leaves, when the request for the listed rule numbered stop fails, or the
      process dies there; number |rules| is the final add. */
  function EnsuredUntil(rules: seq<Rule>, want: Rule, stop: nat): (seq<Rule>, bool) {
    var s := SweepAll(rules, if stop < |rules| then rules[..stop] else rules, want);
    if !s.ok || stop < |rules| then (s.rules, false)
    else if s.found then (s.rules, true)
    else if stop == |rules| then (s.rules, false)
    else (RuleAdd(s.rules, want), true)
  }

  function Ensured(rules: seq<Rule>, want: Rule): (seq<Rule>, bool) {
    EnsuredUntil(rules, want, |rules| + 1)
  }

  // ---- routing tables ----

  datatype Target = Via(link: string) | Blackhole

  type RoutingTable = map<Prefix, Target>
  type Tables = map<nat, RoutingTable>

  function Routes(tables: Tables, table: nat): RoutingTable {
    if table in tables then tables[table] else map[]
  }

  function RouteReplace(tables: Tables, table: nat, dst: Prefix, target: Target): Tables {
    tables[table := Routes(tables, table)[dst := target]]
  }

  const EVERYWHERE := Prefix(0, 0)

  /** Where a call of ensureRouting fails, if it does: the link lookup, a route, or a request of one of the rules. */
  datatype Fault = NoFault | NoLink | PeerRoute | BlackholeRoute | FirstRule(at: nat) | SecondRule(at: nat)

  function Routed(tables: Tables, p: Prefix): Tables {
    RouteReplace(RouteReplace(tables, PEER_TABLE, p, Via(WG)), BLACKHOLE_TABLE, EVERYWHERE, Blackhole)
  }

  function RoutedUntil(tables: Tables, p: Prefix, fault: Fault): Tables {
    match fault
    case NoLink => tables
    case PeerRoute => tables
    case BlackholeRoute => RouteReplace(tables, PEER_TABLE, p, Via(WG))
    case _ => Routed(tables, p)
  }

  function RoutedRules(rules: seq<Rule>, p: Prefix): (seq<Rule>, bool) {
    var first := Ensured(rules, PeerRule(p));
    if first.1 then Ensured(first.0, BLACKHOLE_RULE) else first
  }

  function RulesUntil(rules: seq<Rule>, p: Prefix, fault: Fault): (seq<Rule>, bool) {
    match fault
    case NoFault => RoutedRules(rules, p)
    case FirstRule(at) =>
      var first := EnsuredUntil(rules, PeerRule(p), at);
      if first.1 then Ensured(first.0, BLACKHOLE_RULE) else first
    case SecondRule(at) =>
      var first := Ensured(rules, PeerRule(p));
      if first.1 then EnsuredUntil(first.0, BLACKHOLE_RULE, at) else first
    case _ => (rules, false)
  }

  class ServerKernel {
    var rules: seq<Rule>
    var tables: Tables

    constructor (rules: seq<Rule>, tables: Tables)
      ensures this.rules == rules && this.tables == tables
    {
      this.rules, this.tables := rules, tables;
    }

    method EnsureRule(want: Rule, stop: nat) returns (ok: bool)
      modifies this`rules
      ensures (rules, ok) == EnsuredUntil(old(rules), want, stop)
    {
      var have := rules;
      var found := false;
      for i := 0 to |have|
        invariant i <= stop && SweepAll(have, have[..i], want) == Sweep(rules, found, true)
      {
        if i == stop {
          return false;
        }
        assert have[..i + 1][..i] == have[..i];
        var r := have[i];
        if r.prio != want.prio {
          continue;
        }
        if r == want {
          found := true;
          continue;
        }
        var rest := RuleDel(rules, r);
        if rest.None? {
          ghost var seen := if stop < |have| then have[..stop] else have;
          assert seen[..i + 1] == have[..i + 1];
          SweepFailed(have, seen, i + 1, want);
          return false;
        }
        rules := rest.value;
      }
      assert have[..|have|] == have;
      if found {
        return true;
      }
      if stop == |have| {
        return false;
      }
      rules := RuleAdd(rules, want);
      ok := true;
    }

    /** ensureRouting: the link, the two routes, then the two rules, with at most one request failing. */
    method EnsureRouting(p: Prefix, fault: Fault) returns (ok: bool)
      modifies this
      ensures tables == RoutedUntil(old(tables), p, fault)
      ensures (rules, ok) == RulesUntil(old(rules), p, fault)
    {
      if fault == NoLink || fault == PeerRoute {
        return false;
      }
      tables := RouteReplace(tables, PEER_TABLE, p, Via(WG));
      if fault == BlackholeRoute {
        return false;
      }
      tables := RouteReplace(tables, BLACKHOLE_TABLE, EVERYWHERE, Blackhole);
      ok := EnsureRule(PeerRule(p), if fault.FirstRule? then fault.at else |rules| + 1);
      if ok {
        ok := EnsureRule(BLACKHOLE_RULE, if fault.SecondRule? then fault.at else |rules| + 1);
      }
    }
  }

  lemma {:induction false} SweepFailed(rules: seq<Rule>, have: seq<Rule>, k: nat, want: Rule)
    requires k <= |have| && !SweepAll(rules, have[..k], want).ok
    ensures SweepAll(rules, have, want) == SweepAll(rules, have[..k], want)
  {
    if k == |have| {
      assert have[..k] == have;
    } else {
      var front := have[..|have| - 1];
      assert front[..k] == have[..k];
      SweepFailed(rules, front, k, want);
    }
  }
}
