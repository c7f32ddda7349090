/** The client sidecar's routing pass over the kernel's main table: internal/sidecar/routes.go and
    internal/sidecar/routes_linux.go, with the kernel's replace, delete and longest-match lookup (section 5.1 of
    RFC 4632). */
module ClientRoutes {
  import opened Sequences
  import opened Ipv4

  /** A main-table IPv4 route, as toRoute reads it. */
  datatype Route = Route(dst: Prefix, gw: Option<Addr>, link: nat, prio: nat, proto: nat, scope: nat)

  /** The kernel holds one route per destination and priority. */
  type Slot = (Prefix, nat)
  type Table = map<Slot, Route>

  /** rtnetlink protocol 151 and RT_SCOPE_LINK. */
  const PROTO := 151
  const SCOPE_LINK := 253
  const ANYWHERE := Prefix(0, 0)
  const DEFAULT_SLOT: Slot := (ANYWHERE, 0)

  function SlotOf(r: Route): Slot {
    (r.dst, r.prio)
  }

  ghost predicate WellKeyed(t: Table) {
    forall k :: k in t ==> SlotOf(t[k]) == k
  }

  /** have lists the routes of t, in some order. */
  ghost predicate Dumps(have: seq<Route>, t: Table) {
    forall r :: r in have <==> SlotOf(r) in t && t[SlotOf(r)] == r
  }

  predicate IsDefault(r: Route) {
    r.dst.bits == 0
  }

  // ---- planRoutes ----

  datatype Plan = Plan(gw: Addr, gwLink: nat, local: seq<Prefix>, stale: seq<Route>)

  predicate IsStale(r: Route, wg: nat, local: seq<Prefix>) {
    if IsDefault(r) then r.link != wg else r.proto == PROTO && r.dst !in local
  }

  function StaleOf(have: seq<Route>, wg: nat, local: seq<Prefix>): seq<Route> {
    if have == [] then [] else
    var r := have[|have| - 1];
    StaleOf(have[..|have| - 1], wg, local) + if IsStale(r, wg, local) then [r] else []
  }

  function GatewayIndex(have: seq<Route>, wg: nat): Option<nat> {
    match IndexFunc(have, (r: Route) => IsDefault(r) && r.link != wg && r.gw.Some?)
    case Some(i) => Some(i)
    case None => IndexFunc(have, (r: Route) => r.proto == PROTO && r.gw.Some?)
  }

  function Planned(have: seq<Route>, wg: nat, local: seq<Prefix>): Option<Plan> {
    match GatewayIndex(have, wg)
    case None => None
    case Some(i) => Some(Plan(have[i].gw.value, have[i].link, local, StaleOf(have, wg, local)))
  }

  method PlanRoutes(have: seq<Route>, wg: nat, local: seq<Prefix>) returns (plan: Option<Plan>)
    ensures plan == Planned(have, wg, local)
  {
    var i := GatewayIndex(have, wg);
    if i.None? {
      return None;
    }
    var stale := [];
    for j := 0 to |have|
      invariant stale == StaleOf(have[..j], wg, local)
    {
      assert have[..j + 1][..j] == have[..j];
      if IsDefault(have[j]) {
        if have[j].link != wg {
          stale := stale + [have[j]];
        }
      } else if have[j].proto == PROTO && have[j].dst !in local {
        stale := stale + [have[j]];
      }
    }
    assert have[..|have|] == have;
    plan := Some(Plan(have[i.value].gw.value, have[i.value].link, local, stale));
  }

  // ---- the kernel ----

  function LocalRoute(plan: Plan, p: Prefix): Route {
    Route(p, Some(plan.gw), plan.gwLink, 0, PROTO, 0)
  }

  function DefaultRoute(wg: nat): Route {
    Route(ANYWHERE, None, wg, 0, PROTO, SCOPE_LINK)
  }

  function Replace(t: Table, r: Route): Table {
    t[SlotOf(r) := r]
  }

  /** x has every field the delete request r names; priority 0, protocol 0 and no gateway name nothing. */
  predicate Matches(x: Route, r: Route) {
    && x.dst == r.dst && x.link == r.link && x.scope == r.scope
    && (r.prio == 0 || x.prio == r.prio)
    && (r.proto == 0 || x.proto == r.proto)
    && (r.gw.None? || x.gw == r.gw)
  }

  /** The route a delete request removes: the match with the lowest priority. */
  ghost predicate Victim(t: Table, r: Route, k: Slot) {
    k in t && Matches(t[k], r) && forall k' :: k' in t && Matches(t[k'], r) ==> k.1 <= k'.1
  }

  ghost predicate HasVictim(t: Table, r: Route) {
    exists k :: Victim(t, r, k)
  }

  ghost function Remove(t: Table, r: Route): Table {
    if HasVictim(t, r) then var k :| Victim(t, r, k); t - {k} else t
  }

  ghost function RemoveAll(t: Table, stale: seq<Route>): Table {
    if stale == [] then t else Remove(RemoveAll(t, stale[..|stale| - 1]), stale[|stale| - 1])
  }

  /** One netlink request of ensureRoutes. */
  datatype Op = Install(p: Prefix) | InstallDefault | Delete(r: Route)

  ghost function Do(t: Table, wg: nat, plan: Plan, op: Op): Table {
    match op
    case Install(p) => Replace(t, LocalRoute(plan, p))
    case InstallDefault => Replace(t, DefaultRoute(wg))
    case Delete(r) => Remove(t, r)
  }

  /** The requests of one pass, in order. */
  function Ops(plan: Plan): seq<Op> {
    seq(|plan.local|, i requires 0 <= i < |plan.local| => Install(plan.local[i]))
    + [InstallDefault]
    + seq(|plan.stale|, i requires 0 <= i < |plan.stale| => Delete(plan.stale[i]))
  }

  ghost function DoAll(t: Table, wg: nat, plan: Plan, ops: seq<Op>): Table {
    if ops == [] then t else Do(DoAll(t, wg, plan, ops[..|ops| - 1]), wg, plan, ops[|ops| - 1])
  }

  /** The pod's network namespace. */
  class Kernel {
    var routes: Table

    constructor (routes: Table)
      ensures this.routes == routes
    {
      this.routes := routes;
    }

    method RouteDel(r: Route)
      requires WellKeyed(routes)
      modifies this
      ensures routes == Remove(old(routes), r)
    {
      var found: set<Slot> := set k | k in routes && Matches(routes[k], r);
      if found != {} {
        var k := LeastPriority(found);
        assert Victim(routes, r, k);
        VictimUnique(routes, r, k);
        routes := routes - {k};
      } else {
        assert forall k :: k in routes && Matches(routes[k], r) ==> k in found;
      }
    }

    /** ensureRoutes over the listing have; the request numbered stop fails, or the process dies before it. */
    method EnsureRoutes(have: seq<Route>, wg: nat, local: seq<Prefix>, stop: nat) returns (ok: bool)
      requires WellKeyed(routes) && Dumps(have, routes)
      modifies this
      ensures Planned(have, wg, local).None? ==> !ok && routes == old(routes)
      ensures Planned(have, wg, local).Some? ==>
        var plan := Planned(have, wg, local).value;
        var ops := Ops(plan);
        && ok == (|ops| <= stop)
        && routes == DoAll(old(routes), wg, plan, if ok then ops else ops[..stop])
    {
      var planned := PlanRoutes(have, wg, local);
      if planned.None? {
        return false;
      }
      var plan := planned.value;
      ghost var before := routes;
      ok := InstallRoutes(wg, plan, stop);
      if !ok {
        return;
      }
      var left := stop - |plan.local| - 1;
      ok := DeleteStale(plan.stale, left);
      PassTail(before, wg, plan, left);
    }

    /** The installs of ensureRoutes: the local routes, then the default. */
    method InstallRoutes(wg: nat, plan: Plan, stop: nat) returns (ok: bool)
      requires WellKeyed(routes)
      modifies this
      ensures WellKeyed(routes) && ok == (|plan.local| < stop)
      ensures routes == DoAll(old(routes), wg, plan, Ops(plan)[..if ok then |plan.local| + 1 else stop])
    {
      ghost var ops := Ops(plan);
      for i := 0 to |plan.local|
        invariant i <= stop && WellKeyed(routes) && routes == DoAll(old(routes), wg, plan, ops[..i])
      {
        if i == stop {
          return false;
        }
        NextOp(old(routes), wg, plan, i);
        routes := Replace(routes, LocalRoute(plan, plan.local[i]));
      }
      if |plan.local| == stop {
        return false;
      }
      NextOp(old(routes), wg, plan, |plan.local|);
      routes := Replace(routes, DefaultRoute(wg));
      ok := true;
    }

    /** deleteStale; the request numbered stop fails, or the process dies before it. */
    method DeleteStale(stale: seq<Route>, stop: nat) returns (ok: bool)
      requires WellKeyed(routes)
      modifies this
      ensures ok == (|stale| <= stop)
      ensures routes == RemoveAll(old(routes), if ok then stale else stale[..stop])
    {
      for j := 0 to |stale|
        invariant j <= stop && WellKeyed(routes) && routes == RemoveAll(old(routes), stale[..j])
      {
        if j == stop {
          return false;
        }
        assert stale[..j + 1][..j] == stale[..j];
        RemoveKeepsKeyed(routes, stale[j]);
        RouteDel(stale[j]);
      }
      assert stale[..|stale|] == stale;
      ok := true;
    }
  }

  lemma RemoveKeepsKeyed(t: Table, r: Route)
    requires WellKeyed(t)
    ensures WellKeyed(Remove(t, r))
  {
  }

  /** The deletes of a pass, one after another. */
  lemma {:induction false} DeletesAreOps(t: Table, wg: nat, plan: Plan, n: nat)
    requires n <= |plan.stale|
    ensures DoAll(t, wg, plan, Ops(plan)[..|plan.local| + 1 + n]) ==
      RemoveAll(DoAll(t, wg, plan, Ops(plan)[..|plan.local| + 1]), plan.stale[..n])
  {
    if n > 0 {
      DeletesAreOps(t, wg, plan, n - 1);
      NextOp(t, wg, plan, |plan.local| + n);
      assert plan.stale[..n][..n - 1] == plan.stale[..n - 1];
    }
  }

  lemma PassTail(t: Table, wg: nat, plan: Plan, left: nat)
    ensures |Ops(plan)| == |plan.local| + 1 + |plan.stale|
    ensures var installed, ops := DoAll(t, wg, plan, Ops(plan)[..|plan.local| + 1]), Ops(plan);
      if |plan.stale| <= left then RemoveAll(installed, plan.stale) == DoAll(t, wg, plan, ops)
      else RemoveAll(installed, plan.stale[..left]) == DoAll(t, wg, plan, ops[..|plan.local| + 1 + left])
  {
    DeletesAreOps(t, wg, plan, if |plan.stale| <= left then |plan.stale| else left);
    assert Ops(plan)[..|plan.local| + 1 + |plan.stale|] == Ops(plan);
    assert plan.stale[..|plan.stale|] == plan.stale;
  }

  lemma NextOp(t: Table, wg: nat, plan: Plan, i: nat)
    requires i < |Ops(plan)|
    ensures DoAll(t, wg, plan, Ops(plan)[..i + 1]) == Do(DoAll(t, wg, plan, Ops(plan)[..i]), wg, plan, Ops(plan)[i])
    ensures i < |plan.local| ==> Ops(plan)[i] == Install(plan.local[i])
    ensures i == |plan.local| ==> Ops(plan)[i] == InstallDefault
    ensures i > |plan.local| ==> Ops(plan)[i] == Delete(plan.stale[i - |plan.local| - 1])
  {
    assert Ops(plan)[..i + 1][..i] == Ops(plan)[..i];
  }

  method LeastPriority(found: set<Slot>) returns (k: Slot)
    requires found != {}
    ensures k in found && forall k' :: k' in found ==> k.1 <= k'.1
  {
    k :| k in found;
    var left := found - {k};
    while left != {}
      invariant left < found && k in found && k !in left
      invariant forall k' :: k' in found && k' !in left ==> k.1 <= k'.1
      decreases |left|
    {
      var k' :| k' in left;
      left := left - {k'};
      if k'.1 < k.1 {
        k := k';
      }
    }
  }

  lemma VictimUnique(t: Table, r: Route, k: Slot)
    requires WellKeyed(t) && Victim(t, r, k)
    ensures Remove(t, r) == t - {k}
  {
    assert HasVictim(t, r);
    forall k' | Victim(t, r, k')
      ensures k' == k
    {
      assert SlotOf(t[k']) == k' && SlotOf(t[k]) == k;
    }
  }

  lemma DoKeepsKeyed(t: Table, wg: nat, plan: Plan, op: Op)
    requires WellKeyed(t)
    ensures WellKeyed(Do(t, wg, plan, op))
  {
  }
}
