/** What the client's routing passes guarantee: the exact table a pass leaves, recovery after a crash at any
    request, no way out but the tunnel, and an endpoint that never enters it. */
module ClientSafety {
  import opened Sequences
  import opened Ipv4
  import opened ClientRoutes

  // ---- the table a pass leaves ----

  /** What parseLocalCIDRs guarantees of the list it returns. */
  ghost predicate ProperLocal(local: seq<Prefix>) {
    forall p :: p in local ==> p.bits > 0
  }

  ghost predicate Installed(local: seq<Prefix>, k: Slot) {
    k.0 in local && k.1 == 0
  }

  /** t is the table a complete pass makes of t0: the default route on wg0, one route per local prefix, and every
      other route of t0 that is not stale. */
  ghost predicate Final(t0: Table, wg: nat, plan: Plan, t: Table) {
    forall k ::
      if k == DEFAULT_SLOT then k in t && t[k] == DefaultRoute(wg)
      else if Installed(plan.local, k) then k in t && t[k] == LocalRoute(plan, k.0)
      else (k in t <==> k in t0 && !IsStale(t0[k], wg, plan.local)) && (k in t ==> t[k] == t0[k])
  }

  /** The table after the first n installs. */
  ghost predicate AfterInstalls(t0: Table, plan: Plan, n: nat, t: Table)
    requires n <= |plan.local|
  {
    forall k ::
      if Installed(plan.local[..n], k) then k in t && t[k] == LocalRoute(plan, k.0)
      else (k in t <==> k in t0) && (k in t ==> t[k] == t0[k])
  }

  lemma {:induction false} InstallsDone(t0: Table, wg: nat, plan: Plan, n: nat)
    requires n <= |plan.local|
    ensures AfterInstalls(t0, plan, n, DoAll(t0, wg, plan, Ops(plan)[..n]))
  {
    if n == 0 {
      assert Ops(plan)[..0] == [];
    } else {
      InstallsDone(t0, wg, plan, n - 1);
      NextOp(t0, wg, plan, n - 1);
      assert plan.local[..n] == plan.local[..n - 1] + [plan.local[n - 1]];
    }
  }

  /** The table once the default route is in place and no stale route has been deleted. */
  ghost predicate BeforeDeletes(t0: Table, wg: nat, plan: Plan, t: Table) {
    forall k ::
      if k == DEFAULT_SLOT then k in t && t[k] == DefaultRoute(wg)
      else if Installed(plan.local, k) then k in t && t[k] == LocalRoute(plan, k.0)
      else (k in t <==> k in t0) && (k in t ==> t[k] == t0[k])
  }

  lemma DefaultInstalled(t0: Table, wg: nat, plan: Plan)
    requires ProperLocal(plan.local)
    ensures BeforeDeletes(t0, wg, plan, DoAll(t0, wg, plan, Ops(plan)[..|plan.local| + 1]))
  {
    InstallsDone(t0, wg, plan, |plan.local|);
    assert plan.local[..|plan.local|] == plan.local;
    NextOp(t0, wg, plan, |plan.local|);
  }

  /** A delete request for a stale route removes that route if it is still there, and otherwise at most another
      stale one. */
  lemma DeleteHitsStale(t: Table, wg: nat, local: seq<Prefix>, r: Route)
    requires WellKeyed(t) && IsStale(r, wg, local)
    ensures forall k :: k in Remove(t, r) ==> k in t && Remove(t, r)[k] == t[k]
    ensures forall k :: k in t && !IsStale(t[k], wg, local) ==> k in Remove(t, r)
    ensures !(SlotOf(r) in Remove(t, r) && t[SlotOf(r)] == r)
  {
    if HasVictim(t, r) {
      var k :| Victim(t, r, k);
      VictimUnique(t, r, k);
      assert SlotOf(t[k]) == k;
    } else if SlotOf(r) in t && t[SlotOf(r)] == r {
      SomeVictim(t, r, SlotOf(r));
    }
  }

  /** A matching route exists, so one with the lowest priority does. */
  lemma {:induction false} SomeVictim(t: Table, r: Route, k: Slot)
    requires k in t && Matches(t[k], r)
    ensures HasVictim(t, r)
    decreases k.1
  {
    if k' :| k' in t && Matches(t[k'], r) && k'.1 < k.1 {
      SomeVictim(t, r, k');
    } else {
      assert Victim(t, r, k);
    }
  }

  /** After n deletes: a part of the table before them, with every route kept that is not stale, and none of the
      first n stale ones. */
  ghost predicate Deleting(t0: Table, wg: nat, plan: Plan, n: nat, t: Table)
    requires n <= |plan.stale|
  {
    && (forall k :: k in t ==> k in t0 && t[k] == t0[k])
    && (forall k :: k in t0 && !IsStale(t0[k], wg, plan.local) ==> k in t)
    && (forall j :: 0 <= j < n ==> !(SlotOf(plan.stale[j]) in t && t0[SlotOf(plan.stale[j])] == plan.stale[j]))
  }

  lemma {:induction false} DeletesDone(t1: Table, wg: nat, plan: Plan, n: nat)
    requires n <= |plan.stale| && WellKeyed(t1) && forall r :: r in plan.stale ==> IsStale(r, wg, plan.local)
    ensures Deleting(t1, wg, plan, n, RemoveAll(t1, plan.stale[..n]))
  {
    if n > 0 {
      DeletesDone(t1, wg, plan, n - 1);
      assert plan.stale[..n][..n - 1] == plan.stale[..n - 1];
      assert plan.stale[n - 1] in plan.stale;
      DeletingStep(t1, wg, plan, n - 1, RemoveAll(t1, plan.stale[..n - 1]));
    }
  }

  lemma DeletingStep(t1: Table, wg: nat, plan: Plan, n: nat, t: Table)
    requires n < |plan.stale| && WellKeyed(t1) && Deleting(t1, wg, plan, n, t) && IsStale(plan.stale[n], wg, plan.local)
    ensures Deleting(t1, wg, plan, n + 1, Remove(t, plan.stale[n]))
  {
    DeleteHitsStale(t, wg, plan.local, plan.stale[n]);
  }

  lemma {:induction false} StaleMembership(have: seq<Route>, wg: nat, local: seq<Prefix>)
    ensures forall r :: r in StaleOf(have, wg, local) <==> r in have && IsStale(r, wg, local)
  {
    if have != [] {
      StaleMembership(have[..|have| - 1], wg, local);
      assert have == have[..|have| - 1] + [have[|have| - 1]];
    }
  }

  lemma {:induction false} PassKeepsKeyed(t0: Table, wg: nat, plan: Plan, n: nat)
    requires WellKeyed(t0) && n <= |Ops(plan)|
    ensures WellKeyed(DoAll(t0, wg, plan, Ops(plan)[..n]))
  {
    if n == 0 {
      assert Ops(plan)[..0] == [];
    } else {
      PassKeepsKeyed(t0, wg, plan, n - 1);
      NextOp(t0, wg, plan, n - 1);
      DoKeepsKeyed(DoAll(t0, wg, plan, Ops(plan)[..n - 1]), wg, plan, Ops(plan)[n - 1]);
    }
  }

  /** A complete pass leaves exactly the final table, in whatever order the kernel dumped the old one. */
  lemma PassIsFinal(t0: Table, have: seq<Route>, wg: nat, local: seq<Prefix>)
    requires WellKeyed(t0) && Dumps(have, t0) && ProperLocal(local) && Planned(have, wg, local).Some?
    ensures var plan := Planned(have, wg, local).value;
      Final(t0, wg, plan, DoAll(t0, wg, plan, Ops(plan)))
  {
    StaleMembership(have, wg, local);
    RequestsMakeFinal(t0, wg, Planned(have, wg, local).value);
  }

  lemma RequestsMakeFinal(t0: Table, wg: nat, plan: Plan)
    requires WellKeyed(t0) && ProperLocal(plan.local)
    requires forall r :: r in plan.stale ==> IsStale(r, wg, plan.local)
    requires forall k :: k in t0 && IsStale(t0[k], wg, plan.local) ==> t0[k] in plan.stale
    ensures Final(t0, wg, plan, DoAll(t0, wg, plan, Ops(plan)))
  {
    var t1 := DoAll(t0, wg, plan, Ops(plan)[..|plan.local| + 1]);
    PassKeepsKeyed(t0, wg, plan, |plan.local| + 1);
    DefaultInstalled(t0, wg, plan);
    DeletesDone(t1, wg, plan, |plan.stale|);
    DeletesAreOps(t0, wg, plan, |plan.stale|);
    assert Ops(plan)[..|plan.local| + 1 + |plan.stale|] == Ops(plan);
    AllDeleted(t0, wg, plan, t1, DoAll(t0, wg, plan, Ops(plan)));
  }

  /** When every stale route of the old table has been deleted, what is left is the final table. */
  lemma AllDeleted(t0: Table, wg: nat, plan: Plan, t1: Table, t: Table)
    requires WellKeyed(t0) && BeforeDeletes(t0, wg, plan, t1) && ProperLocal(plan.local)
    requires forall k :: k in t0 && IsStale(t0[k], wg, plan.local) ==> t0[k] in plan.stale
    requires Deleting(t1, wg, plan, |plan.stale|, t)
    ensures Final(t0, wg, plan, t)
  {
    assert forall k :: k in t0 ==> SlotOf(t0[k]) == k;
    assert forall r :: r in plan.stale ==> !(SlotOf(r) in t && t1[SlotOf(r)] == r);
  }

  /** What the documentation promises of the final table: the only defaults are on wg0 and one exists, every route
      the client marked is a default or a local one, each local prefix goes via the CNI gateway, and routes of
      other protocols to other destinations are untouched. */
  lemma FinalTable(t0: Table, wg: nat, plan: Plan, t: Table)
    requires WellKeyed(t0) && Final(t0, wg, plan, t) && ProperLocal(plan.local)
    ensures DEFAULT_SLOT in t && t[DEFAULT_SLOT] == Route(Prefix(0, 0), None, wg, 0, 151, 253)
    ensures forall k :: k in t && IsDefault(t[k]) ==> t[k].link == wg
    ensures forall k :: k in t && t[k].proto == 151 ==> IsDefault(t[k]) || t[k].dst in plan.local
    ensures forall p :: p in plan.local ==> (p, 0) in t && t[(p, 0)] == Route(p, Some(plan.gw), plan.gwLink, 0, 151, 0)
    ensures forall k :: k in t0 && !IsDefault(t0[k]) && k.0 !in plan.local && t0[k].proto != PROTO ==> k in t && t[k] == t0[k]
    ensures forall k :: k in t && !IsDefault(t[k]) && k.0 !in plan.local ==> k in t0 && t0[k] == t[k] && t0[k].proto != PROTO
    ensures WellKeyed(t)
  {
    forall k | k in t
      ensures SlotOf(t[k]) == k
      ensures IsDefault(t[k]) ==> t[k].link == wg
    {
      if k != DEFAULT_SLOT && !Installed(plan.local, k) {
        assert k in t0;
      }
    }
  }

  // ---- lookup ----

  /** The kernel routes a by slot k: the longest prefix that contains it, the lowest priority among those. */
  ghost predicate Chosen(t: Table, a: Addr, k: Slot) {
    && k in t && Contains(k.0, a)
    && forall k' :: k' in t && Contains(k'.0, a) ==> k'.0.bits < k.0.bits || (k'.0.bits == k.0.bits && k.1 <= k'.1)
  }

  lemma {:induction false} SomeChosen(t: Table, a: Addr, k: Slot) returns (best: Slot)
    requires k in t && Contains(k.0, a)
    ensures Chosen(t, a, best)
    decreases 32 - k.0.bits, k.1
  {
    if k' :| k' in t && Contains(k'.0, a) && (k'.0.bits > k.0.bits || (k'.0.bits == k.0.bits && k'.1 < k.1)) {
      best := SomeChosen(t, a, k');
    } else {
      best := k;
    }
  }

  /** After a pass every address outside localCIDRs, and outside the routes other owners installed, goes to wg0. */
  lemma ElsewhereIsTunnelled(t0: Table, wg: nat, plan: Plan, t: Table, a: Addr) returns (best: Slot)
    requires WellKeyed(t0) && Final(t0, wg, plan, t) && ProperLocal(plan.local)
    requires forall p :: p in plan.local ==> !Contains(p, a)
    requires forall k :: k in t0 && !IsDefault(t0[k]) && t0[k].proto != PROTO ==> !Contains(k.0, a)
    ensures Chosen(t, a, best)
    ensures forall k :: Chosen(t, a, k) ==> t[k].link == wg
  {
    FinalTable(t0, wg, plan, t);
    ZeroLengthContainsAll(ANYWHERE, a);
    best := SomeChosen(t, a, DEFAULT_SLOT);
    forall k | Chosen(t, a, k)
      ensures t[k].link == wg
    {
      assert SlotOf(t[k]) == k;
    }
  }

  /** An address inside localCIDRs, the gateway's own Service address among them, never takes wg0, provided no
      route more specific than a default is on wg0. */
  lemma LocalStaysLocal(t0: Table, wg: nat, plan: Plan, t: Table, a: Addr, p: Prefix) returns (best: Slot)
    requires WellKeyed(t0) && Final(t0, wg, plan, t) && ProperLocal(plan.local)
    requires p in plan.local && Contains(p, a) && plan.gwLink != wg
    requires forall k :: k in t0 && !IsDefault(t0[k]) ==> t0[k].link != wg
    ensures Chosen(t, a, best)
    ensures forall k :: Chosen(t, a, k) ==> t[k].link != wg && k.0.bits >= p.bits
  {
    FinalTable(t0, wg, plan, t);
    best := SomeChosen(t, a, (p, 0));
    forall k | Chosen(t, a, k)
      ensures t[k].link != wg && k.0.bits >= p.bits
    {
      assert (p, 0) in t;
      assert SlotOf(t[k]) == k;
    }
  }

  // ---- recovering the CNI gateway ----

  /** A route planRoutes may read the gateway from. */
  predicate Witness(r: Route, wg: nat) {
    r.gw.Some? && ((IsDefault(r) && r.link != wg) || r.proto == PROTO)
  }

  /** Some route names the CNI gateway, and all that name one agree. */
  ghost predicate Recoverable(t: Table, wg: nat, gw: Addr, link: nat) {
    && (exists k :: k in t && Witness(t[k], wg))
    && (forall k :: k in t && Witness(t[k], wg) ==> t[k].gw == Some(gw) && t[k].link == link)
  }

  lemma PlanRecovers(t: Table, have: seq<Route>, wg: nat, local: seq<Prefix>, gw: Addr, link: nat)
    requires WellKeyed(t) && Dumps(have, t) && Recoverable(t, wg, gw, link)
    ensures Planned(have, wg, local).Some?
    ensures Planned(have, wg, local).value.gw == gw && Planned(have, wg, local).value.gwLink == link
  {
    var k :| k in t && Witness(t[k], wg);
    assert t[k] in have;
    var i := GatewayIndex(have, wg);
    assert have[i.value] in have;
    assert SlotOf(have[i.value]) in t && Witness(t[SlotOf(have[i.value])], wg);
  }

  ghost predicate DefaultOff(r: Route, wg: nat) {
    r.dst.bits == 0 && r.link != wg && r.gw.Some?
  }

  /** Which gateway is read: that of the first default off wg0 that has one, and only without such a default that of
      the first protocol-151 route that has one. */
  lemma GatewayRead(have: seq<Route>, wg: nat, local: seq<Prefix>) returns (i: nat)
    requires Planned(have, wg, local).Some?
    ensures i < |have| && have[i].gw == Some(Planned(have, wg, local).value.gw)
    ensures have[i].link == Planned(have, wg, local).value.gwLink
    ensures if exists r :: r in have && DefaultOff(r, wg)
            then DefaultOff(have[i], wg) && forall j :: 0 <= j < i ==> !DefaultOff(have[j], wg)
            else have[i].proto == 151 && forall j :: 0 <= j < i ==> !(have[j].proto == 151 && have[j].gw.Some?)
  {
    i := GatewayIndex(have, wg).value;
    assert have[i] in have;
  }

  /** planRoutes fails exactly when the table names no gateway. */
  lemma PlanFailsIff(t: Table, have: seq<Route>, wg: nat, local: seq<Prefix>)
    requires WellKeyed(t) && Dumps(have, t)
    ensures Planned(have, wg, local).None? <==> forall k :: k in t ==> !Witness(t[k], wg)
  {
    forall k | k in t
      ensures t[k] in have
    {
    }
    if Planned(have, wg, local).Some? {
      var r := have[GatewayIndex(have, wg).value];
      assert r in have && Witness(t[SlotOf(r)], wg);
    }
  }

  /** What holds after any number of requests of a pass: the gateway is recoverable, and once the first request
      has been made its own route says so. */
  ghost predicate Midway(wg: nat, plan: Plan, n: nat, t: Table)
    requires plan.local != []
  {
    && Recoverable(t, wg, plan.gw, plan.gwLink)
    && (n > 0 ==> (plan.local[0], 0) in t && t[(plan.local[0], 0)] == LocalRoute(plan, plan.local[0]))
  }

  lemma ReplaceKeepsWitnesses(t: Table, wg: nat, plan: Plan, r: Route)
    requires Recoverable(t, wg, plan.gw, plan.gwLink)
    requires r.gw == Some(plan.gw) && r.link == plan.gwLink && r.proto == PROTO
    ensures Recoverable(Replace(t, r), wg, plan.gw, plan.gwLink)
  {
    assert Witness(Replace(t, r)[SlotOf(r)], wg);
  }

  lemma {:induction false} CrashMidway(t0: Table, wg: nat, plan: Plan, n: nat)
    requires WellKeyed(t0) && ProperLocal(plan.local) && plan.local != [] && n <= |Ops(plan)|
    requires Recoverable(t0, wg, plan.gw, plan.gwLink)
    requires forall r :: r in plan.stale ==> IsStale(r, wg, plan.local)
    ensures Midway(wg, plan, n, DoAll(t0, wg, plan, Ops(plan)[..n]))
  {
    if n == 0 {
      assert Ops(plan)[..0] == [];
    } else {
      CrashMidway(t0, wg, plan, n - 1);
      NextOp(t0, wg, plan, n - 1);
      PassKeepsKeyed(t0, wg, plan, n - 1);
      MidwayStep(wg, plan, n - 1, DoAll(t0, wg, plan, Ops(plan)[..n - 1]));
    }
  }

  lemma MidwayStep(wg: nat, plan: Plan, n: nat, t: Table)
    requires WellKeyed(t) && ProperLocal(plan.local) && plan.local != [] && n < |Ops(plan)| && Midway(wg, plan, n, t)
    requires forall r :: r in plan.stale ==> IsStale(r, wg, plan.local)
    ensures Midway(wg, plan, n + 1, Do(t, wg, plan, Ops(plan)[n]))
  {
    NextOp(t, wg, plan, n);
    var first := (plan.local[0], 0);
    assert plan.local[0] in plan.local;
    if n < |plan.local| {
      ReplaceKeepsWitnesses(t, wg, plan, LocalRoute(plan, plan.local[n]));
    } else {
      var t' := Do(t, wg, plan, Ops(plan)[n]);
      if n > |plan.local| {
        assert plan.stale[n - |plan.local| - 1] in plan.stale;
        DeleteHitsStale(t, wg, plan.local, plan.stale[n - |plan.local| - 1]);
      }
      assert first in t' && Witness(t'[first], wg);
    }
  }

  /** A pass attempted on the table t: a dump in some order, the local list, and how many requests were made. */
  datatype Attempt = Attempt(have: seq<Route>, local: seq<Prefix>, requests: nat)

  ghost function Attempted(t: Table, wg: nat, a: Attempt): Table {
    match Planned(a.have, wg, a.local)
    case None => t
    case Some(plan) => DoAll(t, wg, plan, Ops(plan)[..if a.requests < |Ops(plan)| then a.requests else |Ops(plan)|])
  }

  ghost function Attempts(t: Table, wg: nat, passes: seq<Attempt>): Table {
    if passes == [] then t else Attempted(Attempts(t, wg, passes[..|passes| - 1]), wg, passes[|passes| - 1])
  }

  /** Every attempt reads the table as it is then, for a nonempty list of proper prefixes. */
  ghost predicate Sensible(t: Table, wg: nat, passes: seq<Attempt>) {
    forall i :: 0 <= i < |passes| ==>
      && Dumps(passes[i].have, Attempts(t, wg, passes[..i]))
      && passes[i].local != [] && ProperLocal(passes[i].local)
  }

  /** Crash safety: however many passes are attempted, each cut short after any number of requests and each with
      its own localCIDRs, the next pass can still be planned and recovers the same CNI gateway and link. */
  lemma {:induction false} CrashSafe(t: Table, wg: nat, gw: Addr, link: nat, passes: seq<Attempt>)
    requires WellKeyed(t) && Recoverable(t, wg, gw, link) && Sensible(t, wg, passes)
    ensures WellKeyed(Attempts(t, wg, passes)) && Recoverable(Attempts(t, wg, passes), wg, gw, link)
    ensures forall have, local :: Dumps(have, Attempts(t, wg, passes)) ==>
      && Planned(have, wg, local).Some?
      && Planned(have, wg, local).value.gw == gw && Planned(have, wg, local).value.gwLink == link
  {
    if passes != [] {
      var front, last := passes[..|passes| - 1], passes[|passes| - 1];
      assert forall i :: 0 <= i < |front| ==> front[..i] == passes[..i] && front[i] == passes[i];
      CrashSafe(t, wg, gw, link, front);
      AttemptKeeps(Attempts(t, wg, front), wg, gw, link, last);
    }
    forall have, local | Dumps(have, Attempts(t, wg, passes))
      ensures Planned(have, wg, local).Some?
      ensures Planned(have, wg, local).value.gw == gw && Planned(have, wg, local).value.gwLink == link
    {
      PlanRecovers(Attempts(t, wg, passes), have, wg, local, gw, link);
    }
  }

  lemma AttemptKeeps(t: Table, wg: nat, gw: Addr, link: nat, a: Attempt)
    requires WellKeyed(t) && Recoverable(t, wg, gw, link) && Dumps(a.have, t) && a.local != [] && ProperLocal(a.local)
    ensures WellKeyed(Attempted(t, wg, a)) && Recoverable(Attempted(t, wg, a), wg, gw, link)
  {
    PlanRecovers(t, a.have, wg, a.local, gw, link);
    var plan := Planned(a.have, wg, a.local).value;
    StaleMembership(a.have, wg, a.local);
    var n := if a.requests < |Ops(plan)| then a.requests else |Ops(plan)|;
    CrashMidway(t, wg, plan, n);
    PassKeepsKeyed(t, wg, plan, n);
  }

  // ---- fail closed ----

  /** Every default route is on wg0. */
  ghost predicate Closed(t: Table, wg: nat) {
    forall k :: k in t && IsDefault(t[k]) ==> t[k].link == wg
  }

  /** The kernel drops a link's routes with the link. */
  function LinkLost(t: Table, wg: nat): Table {
    map k | k in t && t[k].link != wg :: t[k]
  }

  lemma RequestKeepsClosed(t: Table, wg: nat, plan: Plan, op: Op)
    requires Closed(t, wg) && (op.Install? ==> op.p.bits > 0)
    ensures Closed(Do(t, wg, plan, op), wg)
  {
  }

  lemma {:induction false} PassKeepsClosed(t: Table, wg: nat, plan: Plan, n: nat)
    requires Closed(t, wg) && ProperLocal(plan.local) && n <= |Ops(plan)|
    ensures Closed(DoAll(t, wg, plan, Ops(plan)[..n]), wg)
  {
    if n == 0 {
      assert Ops(plan)[..0] == [];
    } else {
      PassKeepsClosed(t, wg, plan, n - 1);
      NextOp(t, wg, plan, n - 1);
      RequestKeepsClosed(DoAll(t, wg, plan, Ops(plan)[..n - 1]), wg, plan, Ops(plan)[n - 1]);
    }
  }

  /** Fail closed over runs: once a pass has completed, no request of any later pass, complete or cut short,
      installs a default route off wg0; and whenever the link is lost, no default route is left at all. */
  lemma {:induction false} StaysClosed(t: Table, wg: nat, passes: seq<Attempt>)
    requires Closed(t, wg) && forall i :: 0 <= i < |passes| ==> ProperLocal(passes[i].local)
    ensures Closed(Attempts(t, wg, passes), wg)
    ensures forall k :: k in LinkLost(Attempts(t, wg, passes), wg) ==> !IsDefault(Attempts(t, wg, passes)[k])
  {
    if passes != [] {
      var front, last := passes[..|passes| - 1], passes[|passes| - 1];
      StaysClosed(t, wg, front);
      if Planned(last.have, wg, last.local).Some? {
        var plan := Planned(last.have, wg, last.local).value;
        PassKeepsClosed(Attempts(t, wg, front), wg, plan, if last.requests < |Ops(plan)| then last.requests else |Ops(plan)|);
      }
    }
  }

  /** A complete pass closes the table, whatever it held before. */
  lemma PassCloses(t0: Table, have: seq<Route>, wg: nat, local: seq<Prefix>)
    requires WellKeyed(t0) && Dumps(have, t0) && ProperLocal(local) && Planned(have, wg, local).Some?
    ensures var plan := Planned(have, wg, local).value; Closed(DoAll(t0, wg, plan, Ops(plan)), wg)
  {
    PassIsFinal(t0, have, wg, local);
    var plan := Planned(have, wg, local).value;
    FinalTable(t0, wg, plan, DoAll(t0, wg, plan, Ops(plan)));
  }

  // ---- repeating and rebuilding ----

  /** The table of a complete pass: its default, its local routes, and nothing stale. */
  ghost predicate Steady(t: Table, wg: nat, gw: Addr, link: nat, local: seq<Prefix>) {
    && WellKeyed(t) && Recoverable(t, wg, gw, link)
    && (DEFAULT_SLOT in t ==> t[DEFAULT_SLOT] == DefaultRoute(wg))
    && (forall p :: p in local ==> (p, 0) in t && t[(p, 0)] == Route(p, Some(gw), link, 0, PROTO, 0))
    && (forall k :: k in t ==> !IsStale(t[k], wg, local))
  }

  /** A complete pass makes the table steady. */
  lemma PassIsSteady(t0: Table, have: seq<Route>, wg: nat, local: seq<Prefix>, gw: Addr, link: nat)
    requires WellKeyed(t0) && Recoverable(t0, wg, gw, link) && Dumps(have, t0) && local != [] && ProperLocal(local)
    ensures Planned(have, wg, local).Some?
    ensures var plan := Planned(have, wg, local).value;
      Steady(DoAll(t0, wg, plan, Ops(plan)), wg, gw, link, local)
  {
    PlanRecovers(t0, have, wg, local, gw, link);
    var plan := Planned(have, wg, local).value;
    PassIsFinal(t0, have, wg, local);
    StaleMembership(have, wg, local);
    CrashMidway(t0, wg, plan, |Ops(plan)|);
    assert Ops(plan)[..|Ops(plan)|] == Ops(plan);
    FinalIsSteady(t0, wg, plan, DoAll(t0, wg, plan, Ops(plan)));
  }

  lemma FinalIsSteady(t0: Table, wg: nat, plan: Plan, t: Table)
    requires WellKeyed(t0) && ProperLocal(plan.local) && Final(t0, wg, plan, t) && Recoverable(t, wg, plan.gw, plan.gwLink)
    ensures Steady(t, wg, plan.gw, plan.gwLink, plan.local)
  {
    FinalTable(t0, wg, plan, t);
  }

  /** A pass over a steady table, or over what is left of one when wg0 was lost, changes nothing but the default. */
  lemma SteadyPass(t: Table, have: seq<Route>, wg: nat, local: seq<Prefix>, gw: Addr, link: nat)
    requires Steady(t, wg, gw, link, local) && Dumps(have, t) && ProperLocal(local)
    ensures Planned(have, wg, local).Some?
    ensures var plan := Planned(have, wg, local).value;
      DoAll(t, wg, plan, Ops(plan)) == t[DEFAULT_SLOT := DefaultRoute(wg)]
  {
    PlanRecovers(t, have, wg, local, gw, link);
    var plan := Planned(have, wg, local).value;
    PassIsFinal(t, have, wg, local);
    var t' := DoAll(t, wg, plan, Ops(plan));
    forall k
      ensures k in t' <==> k == DEFAULT_SLOT || k in t
      ensures k in t' ==> t'[k] == if k == DEFAULT_SLOT then DefaultRoute(wg) else t[k]
    {
    }
  }

  /** Idempotence: repeating a complete pass, from any dump of the table, changes nothing. */
  lemma RepeatedPassIsIdle(t0: Table, have: seq<Route>, wg: nat, local: seq<Prefix>, gw: Addr, link: nat, have': seq<Route>)
    requires WellKeyed(t0) && Recoverable(t0, wg, gw, link) && Dumps(have, t0) && local != [] && ProperLocal(local)
    requires Planned(have, wg, local).Some?
    requires var plan := Planned(have, wg, local).value; Dumps(have', DoAll(t0, wg, plan, Ops(plan)))
    ensures Planned(have', wg, local).Some?
    ensures var plan, plan' := Planned(have, wg, local).value, Planned(have', wg, local).value;
      DoAll(DoAll(t0, wg, plan, Ops(plan)), wg, plan', Ops(plan')) == DoAll(t0, wg, plan, Ops(plan))
  {
    var plan := Planned(have, wg, local).value;
    var t := DoAll(t0, wg, plan, Ops(plan));
    PassIsSteady(t0, have, wg, local, gw, link);
    PassIsFinal(t0, have, wg, local);
    assert DEFAULT_SLOT in t;
    SteadyPass(t, have', wg, local, gw, link);
    assert t[DEFAULT_SLOT := DefaultRoute(wg)] == t;
  }

  // ---- runs in which wg0 is lost ----

  /** A pass, complete or cut short, or the loss of wg0, which comes back under the index wg. */
  datatype Happening = Pass(attempt: Attempt) | Replaced(wg: nat)

  /** The table and wg0's index after a run. */
  ghost function Happened(t: Table, wg: nat, run: seq<Happening>): (Table, nat) {
    if run == [] then (t, wg) else
    var before := Happened(t, wg, run[..|run| - 1]);
    match run[|run| - 1]
    case Pass(a) => (Attempted(before.0, before.1, a), before.1)
    case Replaced(wg') => (LinkLost(before.0, before.1), wg')
  }

  /** Every pass reads the table as it is then, for a nonempty list of proper prefixes, and wg0 is never the CNI link. */
  ghost predicate SensibleRun(t: Table, wg: nat, link: nat, run: seq<Happening>) {
    && wg != link
    && forall i :: 0 <= i < |run| ==>
         match run[i]
         case Pass(a) => Dumps(a.have, Happened(t, wg, run[..i]).0) && a.local != [] && ProperLocal(a.local)
         case Replaced(wg') => wg' != link
  }

  /** Whatever table wg0 is lost over, the CNI gateway can still be read from what is left. */
  lemma LossKeepsRecoverable(t: Table, wg: nat, wg': nat, gw: Addr, link: nat)
    requires WellKeyed(t) && Recoverable(t, wg, gw, link) && link != wg && link != wg'
    ensures WellKeyed(LinkLost(t, wg)) && Recoverable(LinkLost(t, wg), wg', gw, link)
    ensures Closed(t, wg) ==> Closed(LinkLost(t, wg), wg')
  {
    var k :| k in t && Witness(t[k], wg);
    assert k in LinkLost(t, wg) && Witness(LinkLost(t, wg)[k], wg');
  }

  lemma {:induction false} RunsRecover(t: Table, wg: nat, gw: Addr, link: nat, run: seq<Happening>)
    requires WellKeyed(t) && Recoverable(t, wg, gw, link) && SensibleRun(t, wg, link, run)
    ensures var now := Happened(t, wg, run);
      && WellKeyed(now.0) && Recoverable(now.0, now.1, gw, link) && now.1 != link
      && (Closed(t, wg) ==> Closed(now.0, now.1))
  {
    if run != [] {
      var front := run[..|run| - 1];
      assert forall i :: 0 <= i < |front| ==> front[..i] == run[..i] && front[i] == run[i];
      RunsRecover(t, wg, gw, link, front);
      var before := Happened(t, wg, front);
      match run[|run| - 1]
      case Pass(a) =>
        assert run[..|front|] == front;
        AttemptKeeps(before.0, before.1, gw, link, a);
        if Closed(t, wg) {
          StaysClosed(before.0, before.1, [a]);
          assert [a][..0] == [] && Attempts(before.0, before.1, [a]) == Attempted(before.0, before.1, a);
        }
      case Replaced(wg') =>
        LossKeepsRecoverable(before.0, before.1, wg', gw, link);
    }
  }

  /** Fail closed and rebuilt over runs: through any sequence of passes, each with its own local list and cut short
      after any number of requests, and of losses of wg0, which may come back under other indices, a table without a
      default off wg0 never gets one, a loss leaves no default at all, and at every point one complete pass for any
      local list reads the same CNI gateway and builds the full table of that list. */
  lemma RunsRebuild(t: Table, wg: nat, gw: Addr, link: nat, run: seq<Happening>, have: seq<Route>, local: seq<Prefix>)
    requires WellKeyed(t) && Recoverable(t, wg, gw, link) && SensibleRun(t, wg, link, run)
    requires Dumps(have, Happened(t, wg, run).0) && local != [] && ProperLocal(local)
    ensures var now := Happened(t, wg, run);
      && (Closed(t, wg) ==> Closed(now.0, now.1) && forall k :: k in LinkLost(now.0, now.1) ==> !IsDefault(now.0[k]))
      && Planned(have, now.1, local).Some?
      && var plan := Planned(have, now.1, local).value;
         var built := DoAll(now.0, now.1, plan, Ops(plan));
         && plan.gw == gw && plan.gwLink == link
         && Final(now.0, now.1, plan, built) && Steady(built, now.1, gw, link, local) && Closed(built, now.1)
  {
    RunsRecover(t, wg, gw, link, run);
    var now := Happened(t, wg, run);
    PlanRecovers(now.0, have, now.1, local, gw, link);
    PassIsFinal(now.0, have, now.1, local);
    PassIsSteady(now.0, have, now.1, local, gw, link);
    PassCloses(now.0, have, now.1, local);
  }

  /** In particular, when wg0 is lost after a complete pass, one pass for the same list adds a default to what survived
      the link and changes nothing else. */
  lemma PassRebuilds(t: Table, wg: nat, wg': nat, local: seq<Prefix>, gw: Addr, link: nat, have: seq<Route>)
    requires Steady(t, wg, gw, link, local) && local != [] && ProperLocal(local) && link != wg && link != wg'
    requires Dumps(have, LinkLost(t, wg))
    ensures Planned(have, wg', local).Some?
    ensures var plan := Planned(have, wg', local).value;
      DoAll(LinkLost(t, wg), wg', plan, Ops(plan)) == LinkLost(t, wg)[DEFAULT_SLOT := DefaultRoute(wg')]
  {
    var lost := LinkLost(t, wg);
    forall k | k in lost
      ensures k in t && lost[k] == t[k] && !IsDefault(t[k]) && !IsStale(t[k], wg', local)
    {
      assert !IsStale(t[k], wg, local);
    }
    assert local[0] in local && Witness(lost[(local[0], 0)], wg');
    assert Recoverable(lost, wg', gw, link);
    assert Steady(lost, wg', gw, link, local);
    SteadyPass(lost, have, wg', local, gw, link);
  }

  /** In particular, when only the default used wg0 and the link returns under its old index, the table is the same. */
  lemma PassRestores(t: Table, wg: nat, local: seq<Prefix>, gw: Addr, link: nat, have: seq<Route>)
    requires Steady(t, wg, gw, link, local) && local != [] && ProperLocal(local) && link != wg
    requires DEFAULT_SLOT in t && forall k :: k in t && t[k].link == wg ==> k == DEFAULT_SLOT
    requires Dumps(have, LinkLost(t, wg))
    ensures Planned(have, wg, local).Some?
    ensures var plan := Planned(have, wg, local).value; DoAll(LinkLost(t, wg), wg, plan, Ops(plan)) == t
  {
    PassRebuilds(t, wg, wg, local, gw, link, have);
    assert LinkLost(t, wg)[DEFAULT_SLOT := DefaultRoute(wg)] == t;
  }
}
