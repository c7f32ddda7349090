# Verification of the tunnel operator's peer, device and routing logic

The operator turns `Wireguard` gateways and `WireguardPeer` objects into one message per gateway, `state.json`, which
an agent applies to a WireGuard device; a sidecar registers each client pod as a peer and routes its traffic into the
tunnel. This project is a Dafny model of the decisions along that path and of what holds over every run of them:

- **Addresses and specs** (`Ipv4`, `Ipam`, `Gateway`): IPv4 prefixes over 0..2^32-1 (section 3.1 of RFC 4632), the pool
  allocator, and the checks a gateway spec passes.
- **Peer reconciliation** (`Peers`, `StateJson`, `Pass`, `Operator`): admission, the two conflicts (public key, address),
  allocation, the rendered state, and the reconcile of one gateway. The class `Operator.Reconciler` updates the API store
  and the Secret as the controller does. Its methods are proved equal to a plan of status writes run up to the first
  fatal answer, and the theorems are about that plan: `PassFacts`, `Safety`, `Freshness`, `Stability`, `Serving`,
  `SkippedRelease`, `Decisions`, `Convergence`, `Fixpoint`, `Tightness`, `Identity`. `Statuses` proves the pass against a
  reference that names only specs, ages, namespaces and statuses. `Witnesses` shows that the hypotheses are met.
- **Device** (`Device`, `EndToEnd`): the agent's diff against a device in which giving an allowed IP to one peer takes it
  from another (cryptokey routing, section 2 of the WireGuard paper), and how the two ends of a tunnel fit together.
- **Client routing** (`ClientRoutes`, `ClientSafety`, `Tunnel`): the sidecar's pass over the kernel's main table, with
  longest-match lookup (section 5.1 of RFC 4632).
- **Server policy routing** (`PolicyRouting`, `PolicySafety`): the agent's two `ip rule`s and their routes.
- **Registration** (`Registration`): how a sidecar creates, replaces or refuses its pod's `WireguardPeer`.

`dafny verify dfyconfig.toml` checks the whole project.

## How the model reads

- A run is a list of events: reconciles under any gateway spec, and users creating, re-keying and deleting peers. One
  reconcile meets a `World`: the Service address, the peers its list returned (fresh or stale, in any order), the Secret as
  its two cached reads showed it (fresh or stale), whether the Secret can be read and stored, whether the Deployment can be
  applied, and how the API answers each status write: stored, skipped (Conflict, NotFound), rejected as Invalid, or fatal. A pass writes each peer at most once
  (`Freshness.OneWritePerPeer`), so one answer per peer covers every behaviour.
- Status writes replace the status subresource and leave the stored spec alone. Reading current data means that the list
  holds exactly the stored objects and that the Secret is the stored one.
- `dedupePublicKeys` and `dedupeAddresses` are one loop pair over a `Contest`: the public key, won by the peer the current
  `state.json` lists under it and then by the oldest, or the address, won by the oldest.
- A route delete removes the matching route of lowest priority; a rule delete removes the first rule that has every field
  the request names, where a missing destination or interface names nothing. This is how the kernel reads the requests.
- A pass of the client, a call of `ensureRouting` and a call of `ensurePeer` may be cut short at any request.

Three promises hold only under a condition, and each is proved with it:

- A peer that `state.json` lists can lose its place after a release write was skipped
  (`SkippedRelease.SkippedReleaseCostsAPlace`). `Serving.KeepsPlaceIff` says exactly when a pass lists a peer with the
  address it has.
- Two reconciles settle any cluster (`Fixpoint.TwoReconcilesConverge`), and on every gateway there is one that a single
  reconcile does not settle (`Tightness.OneReconcileIsNotEnough`).
- The comment on `ensureRule` promises the desired rule as the only one at its priority. The code leaves the unrestricted
  rule of the same table and priority instead, if that one is listed after the desired one
  (`PolicySafety.ShadowedExample`). `PolicySafety.EnsureRuleIff` and `PolicySafety.OneCallIff` give the exact condition,
  over any rule list, repeated rules included, and `PolicySafety.RulesConverge` shows how many further calls repair it:
  one, when the list holds the desired rule once. The model follows the code.

## Model

| member | source | states |
|---|---|---|
| Ipv4.OverlapsIffShared | internal/controller/gateway.go:58-67 | two prefixes overlap exactly when some address lies in both |
| Ipam.AllocateIP | internal/ipam/allocator.go:44-58 | the least address of the prefix that is not used; it fails if and only if every address of the prefix is used |
| Ipam.GetUsedIPs | internal/ipam/allocator.go:63-73 | in use are exactly the two reserved addresses and every address set on a peer |
| Ipam.PoolExhaustedIffFull | internal/ipam/allocator.go:44-93 | pigeonhole: a duplicate-free used list inside the prefix never exceeds 2^(32-bits) addresses, and allocation fails exactly when it reaches that number |
| Ipam.AllocationsIncrease | internal/controller/wireguard_controller.go:260-277 | reserving the address just handed out makes the next one strictly larger, and exhaustion is final |
| Gateway.AcceptedIff | internal/controller/wireguard_controller.go:405-420 | the network checks pass iff the pool (10.8.0.0/24 when none is set) is a canonical range of at most /30 without 192.0.2.1 and every localCIDRs entry is canonical, without 192.0.2.1, and shares no address with the pool |
| Gateway.FirstProblemReported | internal/controller/wireguard_controller.go:405-420 | the reason reported is that of the first of the five problems, in the source's order, that the networks have |
| Gateway.NetworksApart | internal/controller/gateway.go:40-92 | for an accepted spec no address of the pool lies in any localCIDRs entry, and 192.0.2.1 lies in none of them |
| Gateway.UsableIffAllocatable | internal/controller/peers.go:232-243 | an address is usable exactly when the allocator could have handed it out |
| Gateway.GatewayAddressesAgree | internal/wireguard/wireguard.go:328-342 | the server address, the allocator's reserved gateway and the address the usability check excludes are the same network+1; the probe source is network+2, inside the range, and the first address the allocator hands out |
| Gateway.FirstAllocatable | internal/datapath/peerpath.go:31-37 | with nothing assigned the allocator hands out network+2, without overflow |
| Peers.MarkNotReady | internal/controller/wireguard_controller.go:333-358 | the object written satisfies `peerStatusMatches` for the same record, so it is not written again |
| Peers.BeatsStrictTotal | internal/controller/peers.go:252-256 | `older` and listed-then-older are asymmetric, and total on peers with distinct namespace/name |
| Peers.BeatsTransitive | internal/controller/peers.go:294-321 | both orders are transitive |
| Peers.RecordHolders | internal/controller/peers.go:262-271 | the first loop maps each contested value to its best contender, and no other value |
| Peers.Dedupe | internal/controller/peers.go:262-321 | the two loops compute the winners, in input order, and the losers, each with the name of its value's holder |
| Peers.BestHolds | internal/controller/peers.go:294-310 | the recorded holder has the value and beats every other peer that has it; there is none iff nobody has the value |
| Peers.LosersNameTheHolder | internal/controller/peers.go:245-250 | every loser names the holder of the value it gives up, which beats it |
| Peers.KeepersInOrder | internal/controller/peers.go:272-280 | the kept peers sit at increasing positions of the input |
| Peers.KeepersShareNothing | internal/controller/peers.go:258-321 | no two kept peers share the contested value |
| Peers.KeptApart | internal/controller/peers.go:258-321 | on the fields themselves: kept peers share no nonempty key, or address, and every loser shares it with the other peer it names |
| Peers.DedupeCorrect | internal/controller/peers.go:262-321 | keep and losers split the input, every loser names a kept peer that shares and wins its value, and the kept set is the same for every input order |
| StateJson.DesiredState | internal/controller/peers.go:147-170 | the state rendered from the admitted peers, through the sort |
| StateJson.RenderedEntries | internal/controller/peers.go:147-170 | strictly increasing by name and namespace, one entry per peer, with that peer's key and address |
| StateJson.RenderCanonical | internal/controller/peers.go:147-170 | any two lists that agree on name, key and address, in whatever order and with whatever else differing, render the same state |
| StateJson.AdmittedKeys | internal/controller/wireguard_controller.go:172-187 | the keys the stored state lists; none without a Secret or with a state that does not parse |
| StateJson.KeysRoundTrip | internal/controller/wireguard_controller.go:172-187 | the keys read back from a rendered state are exactly the name-to-key map of the admitted peers |
| StateJson.RejectedIff | internal/agent/agent.go:32-53 | the agent rejects a state exactly for a private key that is not 44 characters long, or a peer without an address or a key |
| Pass.PassInPhases | internal/controller/wireguard_controller.go:194-230 | a pass that aborts in one phase keeps the writes of the phases before it and makes none of a later one |
| Pass.PassCompletesIff | internal/controller/wireguard_controller.go:194-301 | a pass completes exactly when no write it plans fails and none that makes a peer Ready is Invalid; with only Written, Conflict and NotFound it always does |
| Pass.GrantAt | internal/controller/wireguard_controller.go:259-301 | each peer is served from the used list extended by every address handed out before it, whether or not its write persisted |
| Operator.Reconciler.MarkPeerNotReady | internal/controller/wireguard_controller.go:333-358 | at most one write, none if the record is already there; the caller is stopped exactly when that write is made and fails, so never by Invalid, Conflict or NotFound |
| Operator.Reconciler.AdmitPeers | internal/controller/wireguard_controller.go:234-252 | the store after the refusals, for every pattern of answers, and the admissible peers: those with a WireGuard key that are in the gateway's namespace if it admits only that |
| Operator.Reconciler.ReleaseLosers | internal/controller/wireguard_controller.go:304-311 | the store after the releases, up to the first fatal answer |
| Operator.Reconciler.AllocatePeer | internal/controller/wireguard_controller.go:263-298 | one iteration: the grant, its write, whether the peer is returned and what becomes used; the loop stops exactly when a needed readying write fails or is Invalid, or a needed exhaustion record fails |
| Operator.Reconciler.AllocatePeers | internal/controller/wireguard_controller.go:259-301 | the store and the returned peers of the whole loop are those of the grants in list order |
| Operator.Reconciler.ReconcilePeers | internal/controller/wireguard_controller.go:194-230 | the store and the admitted peers of the whole pass, for every list and every pattern of answers |
| Operator.Reconciler.SyncPeerIdentity | internal/controller/wireguard_controller.go:316-330 | the gateway identity written to the admitted peers that lack it, up to the first fatal answer |
| Operator.Reconciler.Reconcile | internal/controller/wireguard_controller.go:465-653 | peers and Secret after one reconcile in every world: rejected spec or environment, Service address outside, unreadable Secret, aborted pass, Secret created, Secret read stale (a create or update that then fails, or a state that looks unchanged), Deployment failed, or completed |
| PassFacts.ServedIffFirst | internal/controller/wireguard_controller.go:259-301 | a peer without an address gets one exactly when fewer of those before it were served than the pool has free addresses |
| PassFacts.GrantedAddressesDistinct | internal/controller/wireguard_controller.go:259-301 | no two grants of a pass share an address, held or new |
| Safety.AdmittedShareNothing | internal/controller/wireguard_controller.go:194-230 | any two peers one pass returns differ in key and in address, whatever was listed and however writes were answered |
| Safety.PassRendersSafeState | internal/controller/peers.go:147-170 | every completed pass renders a state that `IsStateValid` accepts, with distinct names, canonical distinct keys and distinct addresses inside peerCIDR that are neither its network nor its gateway, and only peers of the gateway's namespace if it admits only that |
| Safety.StateSafetyOverRuns | internal/agent/agent.go:32-53 | over every run, with stale lists, stale reads of the Secret, lost writes, aborted passes and changing specs, the stored state is always such a state |
| Safety.RefusedIff | internal/controller/peers.go:65-101 | a pass refuses a listed peer exactly when its key is not a WireGuard key, or the policy is Same and the namespaces differ |
| Safety.ExactlyOneOutcome | internal/controller/wireguard_controller.go:204-301 | conservation: each listed peer ends in exactly one of refused, key loser, address loser, pool exhausted, admitted, new address not persisted |
| Safety.FirstNeedyAreServed | internal/controller/wireguard_controller.go:259-301 | of the survivors without an address exactly the first min(n, 2^(32-bits) - 2 - held) in list order are assigned one, whichever writes are skipped |
| Freshness.OneWritePerPeer | internal/controller/wireguard_controller.go:194-301 | a pass writes each peer at most once |
| Stability.PassKeepsUnshared | internal/controller/wireguard_controller.go:204-230 | over current data and without skipped writes, a pass aborted anywhere still leaves no two stored peers with one pool address |
| Serving.ListedKeepsKey | internal/controller/peers.go:286-321 | the peer the current state lists under a key keeps it against every contender of whatever age |
| Serving.ServedForever | internal/controller/wireguard_controller.go:172-230 | a listed peer whose address nobody else stores stays listed under the same key and address through every run of reconciles over current peers and keys (writes skipped or fatal, passes aborted, the Secret to rewrite read stale) and of creations, key edits and deletions of other peers |
| Serving.UnsharedForever | internal/controller/wireguard_controller.go:194-301 | from unique addresses, runs without skipped writes keep pool addresses unique, whatever users do |
| Serving.EveryEntryServed | internal/controller/wireguard_controller.go:537-560 | so after each stored state every entry of it is a peer to which `ServedForever` applies |
| Serving.KeepsPlaceIff | internal/controller/peers.go:262-321 | a completed pass lists a peer with the usable address it has iff it is admissible, beats every admissible peer with its key, and is older than every key winner with its address |
| SkippedRelease.SkippedReleaseCostsAPlace | internal/controller/peers.go:201-206 | on every accepted gateway with a Service address in its localCIDRs, one release lost to a Conflict leads to a run in which a listed peer that did not change drops out of the state |
| Decisions.PassDecides | internal/controller/wireguard_controller.go:194-358 | when every write succeeds, each stored peer ends exactly as the one slot that decides it says, or unchanged |
| Convergence.GoodResult | internal/controller/wireguard_controller.go:465-653 | a reconcile over current data with successful writes gives every peer its outcome and lists exactly the admitted ones |
| Convergence.ResultIsTidy | internal/controller/wireguard_controller.go:194-330 | whatever the statuses and the earlier state were, afterwards every listed peer is admissible with its own usable key and address, and no other admissible peer holds a usable address |
| Fixpoint.SecondSettles | internal/controller/wireguard_controller.go:194-358 | from such a cluster one more reconcile leaves nothing to record about any peer |
| Fixpoint.TwoReconcilesConverge | internal/controller/wireguard_controller.go:194-358 | from any statuses and any earlier state, two reconciles reach a fixpoint: the third writes no status and renders an equal state, in whatever order the peers are listed each time |
| Statuses.EveryPeerReads | internal/controller/wireguard_controller.go:194-358 | what a good reconcile leaves on every peer, from any statuses, in terms of specs, ages and namespaces alone: the exact refusal, the key conflict with the peer of the best claim, the address conflict with the eldest key owner, Ready with a pool address (the one held, if any) and the gateway's identity, or pool exhausted with every address given out; and who is listed |
| Statuses.ElderIff | internal/controller/peers.go:252-256 | `older` is: the smaller creation time, then the name that comes first, then the namespace that comes first |
| Statuses.RenderedInOrder | internal/controller/peers.go:159-161 | the rendered peers ascend by name and then namespace, in an order defined by the first differing character |
| Tightness.OneReconcileIsNotEnough | internal/controller/peers.go:282-321 | on every gateway there is a cluster whose second reconcile still changes the state |
| Witnesses.ExampleAccepted | internal/controller/wireguard_controller.go:405-440 | the default pool beside the Service range 10.96.0.0/12 is an accepted spec |
| Witnesses.EveryClusterSettles | internal/controller/wireguard_controller.go:465-653 | for every accepted gateway with a Service network and every cluster with a Secret, two such reconciles exist and end in a cluster that no further good one changes |
| Witnesses.SecondReconcileMatters | internal/controller/peers.go:282-321 | on those gateways reconciles exist of which the second changes what the first left |
| Witnesses.SomeoneIsServed | internal/controller/wireguard_controller.go:172-230 | on every gateway there is a cluster to which `ServedForever` applies |
| Identity.StepKeepsSound | internal/controller/wireguard_controller.go:316-330 | every step keeps each published endpoint inside the localCIDRs published with it |
| Identity.EndpointsStayLocal | internal/controller/wireguard_controller.go:515-517 | over every run with arbitrarily stale lists, lost writes and changing specs, each stored status publishes an endpoint inside its own localCIDRs, all canonical IPv4, or neither |
| Device.CreatePeersConfiguration | internal/wireguard/wireguard.go:357-447 | fails exactly when a consulted address or key does not parse; otherwise lists each decided change once, in some order |
| Device.FailsIff | internal/wireguard/wireguard.go:357-447 | over any state and device it fails exactly for an address that does not parse in the last entry of a device peer, or for a key, or a new peer's address, that does not parse in an entry that has both |
| Device.WithoutAddress | internal/wireguard/wireguard.go:386-406 | a device peer whose last entry has no address is left with no allowed IP |
| Device.DiffDevice | internal/wireguard/wireguard.go:372-407 | the loop over the device's peers: removal, update or nothing for each, whatever order they are reported in |
| Device.AddMissing | internal/wireguard/wireguard.go:409-438 | the loop over the state's peers adds exactly those the device does not have |
| Device.ConfigsAre | internal/wireguard/wireguard.go:345-447 | the change for a key depends only on what the device holds and the state wants, not on any listing order |
| Device.AppliedInAnyOrder | internal/wireguard/wireguard.go:440-447 | after any part of the list, in any order, configured peers hold their address and removed ones are gone, although each assignment may take an address from another peer |
| Device.SyncIsExact | internal/wireguard/wireguard.go:357-447 | for any device and any state with distinct canonical keys and distinct addresses, applying the list in any order leaves exactly the peers of the state, and packets for an address go to a key iff the state gives that address to that key; no wanted peer is removed; a second sync changes nothing |
| Device.SessionsSurvive | internal/wireguard/wireguard.go:357-447 | at every point while the list is applied a peer both on the device and in the state stays, and one already right keeps its address |
| EndToEnd.RunsLeadToExactDevices | internal/wireguard/wireguard.go:239-274 | whatever run produced the stored state, the agent's diff of it cannot fail and leaves a device that sends to each listed key exactly the packets for its listed address |
| EndToEnd.RunsKeepEndpointsOut | internal/controller/gateway.go:94-106 | for every status any such run leaves on a peer, after the client's pass over the localCIDRs in it the longest-match route to the endpoint in it is not wg0, given no other route on wg0 |
| EndToEnd.ListedPeersGetTunnels | internal/sidecar/tunnel.go:31-69 | after a good reconcile the client of every listed peer gets a tunnel with the listed address and no other, the Secret's public key, the Service address and the gateway's networks |
| EndToEnd.TunnelEndsMeet | internal/wireguard/wireguard.go:357-447 | after a good reconcile and the agent's sync, the device sends to a listed peer's key exactly the packets for the address its client gives its own end of the tunnel |
| ClientRoutes.PlanRoutes | internal/sidecar/routes.go:37-60 | the gateway, the local routes and the stale routes planned from one dump, or failure |
| ClientRoutes.Kernel.EnsureRoutes | internal/sidecar/routes_linux.go:18-56 | the table after the pass, and after any number of its requests when one fails or the process dies |
| ClientRoutes.Kernel.DeleteStale | internal/sidecar/routes_linux.go:91-107 | the stale routes go one request at a time, up to the one that fails |
| ClientSafety.PassIsFinal | internal/sidecar/routes_linux.go:28-56 | a complete pass leaves exactly the final table, in whatever order the kernel dumped the old one, although a delete names fields and not a route |
| ClientSafety.FinalTable | internal/sidecar/routes_linux.go:33-56 | the only defaults are on wg0, and the link-scope one of protocol 151 exists; every protocol-151 route is that default or a local one; each local prefix goes via the CNI gateway; other routes are unchanged |
| ClientSafety.ElsewhereIsTunnelled | internal/sidecar/routes.go:49-58 | longest match sends every address outside localCIDRs and outside other owners' routes to wg0 |
| ClientSafety.LocalStaysLocal | internal/sidecar/routes_linux.go:33-50 | longest match never sends an address of localCIDRs to wg0, given no other route on wg0 |
| ClientSafety.PlanFailsIff | internal/sidecar/routes.go:37-48 | planning fails exactly when no route names a gateway off wg0 |
| ClientSafety.GatewayRead | internal/sidecar/routes.go:40-47 | the gateway is that of the first default off wg0 with one, and only without such a default that of the first protocol-151 route with one |
| ClientSafety.CrashSafe | internal/sidecar/routes_linux.go:18-56 | over any sequence of passes with any nonempty local lists, each cut short after any number of requests, the next plan succeeds and recovers the same gateway and link |
| ClientSafety.StaysClosed | internal/sidecar/routes_linux.go:33-55 | once every default is on wg0, no request of any later pass adds one elsewhere, and losing wg0 leaves no default at all |
| ClientSafety.PassCloses | internal/sidecar/routes_linux.go:33-55 | a complete pass leaves every default on wg0, whatever the table held |
| ClientSafety.RepeatedPassIsIdle | internal/sidecar/routes_linux.go:18-56 | repeating a complete pass, from any dump, changes nothing |
| ClientSafety.RunsRebuild | internal/sidecar/routes_linux.go:33-55 | through any sequence of passes with any local lists, cut short anywhere, and of losses of wg0 under changing indices, no default off wg0 appears, a loss leaves no default at all, and at every point one complete pass for any list recovers the same gateway and leaves that list's full table |
| ClientSafety.PassRebuilds | internal/sidecar/routes.go:37-48 | when wg0 is lost after a complete pass, one pass for the same list adds the default to what survived and changes nothing else |
| ClientSafety.PassRestores | internal/sidecar/routes.go:37-48 | if only the default was on wg0 and the index is the same, the table is the one before the loss |
| Tunnel.ParseLocalCIDRs | internal/sidecar/tunnel.go:84-97 | every entry of either family masked, in order; it fails exactly when one does not parse or covers every address |
| Tunnel.ParsedFacts | internal/sidecar/tunnel.go:84-97 | the IPv4 part of the parsed list never holds a default and covers exactly the IPv4 addresses the status lists |
| Tunnel.TunnelIsPublished | internal/sidecar/tunnel.go:31-69 | it waits exactly while one of the four fields is missing, there is a tunnel exactly when all four parse, and the tunnel covers the published address alone, with the published key, endpoint and masked networks |
| Tunnel.EndpointAvoidsTunnel | internal/sidecar/tunnel.go:31-69 | the client's half of it: for every status whose endpoint lies in its own localCIDRs, after the pass the endpoint's longest-match route is not wg0 |
| PolicyRouting.ServerKernel.EnsureRule | internal/datapath/routing_linux.go:54-80 | the rules and the verdict of the sweep over one listing, while the deletes change the list underneath, complete or cut short at any listed rule or at the add |
| PolicyRouting.ServerKernel.EnsureRouting | internal/datapath/routing_linux.go:19-50 | tables and rules after both routes and both rules, or after the requests before the link lookup, route or rule request that fails |
| PolicySafety.EnsureRuleIff | internal/datapath/routing_linux.go:52-80 | over any rule list the call succeeds, and leaves only the desired rule at its priority with every other priority in order, iff the unrestricted rule of its table was not listed after it; it leaves as many rules there as there were copies of the desired one, each that or the unrestricted one |
| PolicySafety.ShadowedExample | internal/datapath/routing_linux.go:52-80 | two rules for which the desired one is lost although the call reports success |
| PolicySafety.SecondCallIsExact | internal/datapath/routing_linux.go:54-80 | when the first rule was listed at most once, or the second differs from it, a second call for a rule of that table leaves it alone at its priority |
| PolicySafety.OneCallIff | internal/datapath/routing_linux.go:44-50 | over any rule list one `ensureRouting` leaves only the two desired rules at their priorities, and all other owners' rules in order, iff neither is listed before the unrestricted rule of its table |
| PolicySafety.RulesConverge | internal/datapath/routing_linux.go:44-107 | over any rule list, once there were more calls than copies of the blackhole rule and of the first range's rule (or the range changed), only the two rules of the last range remain at their priorities, and all other owners' rules are the original ones in order; two calls do when each was listed at most once |
| PolicySafety.CallIsIdle | internal/datapath/routing_linux.go:44-80 | from then on repeating the call changes nothing |
| PolicySafety.PeerTrafficFailsClosed | internal/datapath/routing_linux.go:19-98 | after any call, over any rules and any tables, a packet from wg0 never consults a rule after preference 102; there only the agent's table is asked, and it drops the packet if nobody else has put a route into it |
| PolicySafety.PeerTrafficReturns | internal/datapath/routing_linux.go:19-98 | after any call, over any rules and any tables, a packet for the range, from any interface, never consults a rule after preference 90, so none of gluetun's at 98 to 101; there only table 51821 is asked, and it sends the packet to wg0 if nobody else routes in it |
| PolicySafety.CallCloses | internal/datapath/routing_linux.go:19-80 | a complete call puts them in place, from any rules in which no unrestricted rule follows the blackhole rule |
| PolicySafety.ServerStaysClosed | internal/datapath/routing_linux.go:19-80 | once the blackhole rule and its route are in place, through any sequence of calls for any ranges, each cut short at any request, a packet from wg0 never consults a rule after preference 102 |
| PolicySafety.EarlierRangesUnreachable | internal/datapath/routing_linux.go:84-98 | the peer table's contents, earlier ranges included, make no difference to a packet for an address outside the current peerCIDR |
| PolicySafety.PeerTableLeadsToWg | internal/datapath/routing_linux.go:24-42 | a packet for the current range finds a route in the peer table, and every match there leads to wg0 |
| Registration.DecideIff | internal/sidecar/peer.go:47-62 | keep exactly this pod's object with this key and gateway; replace exactly the other Pod-controlled ones |
| Registration.Runner.EnsurePeer | internal/sidecar/peer.go:68-97 | the API object and the result of one call for any read, however stale, and any API error, done or not: a live object goes only if its UID is that of one read as another Pod's or with another key or gateway, and the peer is returned exactly when it was read as this pod's own |
| Registration.Runner.Step | internal/sidecar/sidecar.go:41-55 | a tunnel is applied exactly when an object is read as this pod's own with everything published, and it is the one `TunnelIsPublished` describes |
| Registration.PassIsEnsurePeer | internal/sidecar/peer.go:68-97 | the read, delete and create events of the run model, without interference, are one call of `ensurePeer`, whatever API error ends it |
| Registration.RegistersByTheSecondStep | internal/sidecar/peer.go:64-97 | with current reads, a store that is not refused holds this pod's object after one step and is never written again, whatever errors later steps meet |
| Registration.RegistrationIsLawful | internal/sidecar/peer.go:47-97 | over every interleaving with other actors, and whatever the reads showed, each object deleted had the UID of one the sidecar had read as Pod-controlled, and each applied tunnel came from an object it had read with this pod's UID, key and gateway |
| Registration.ForeignObjectsSurvive | internal/sidecar/peer.go:47-97 | with a cache that only shows what was once live, an object that no Pod ever controlled is never deleted |

## Left out

- Text: parsing and printing of IPs, CIDRs, keys and JSON live in libraries. Addresses are integers, a key is a canonical value or some other text, `state.json` is a datatype, and message wording is an enumeration with the names it carries.
- Gateway.AcceptedIff: covers the five network checks; the two checks of spec.gluetun's environment are short lookups and enter a reconcile as one answer of its `World`.
- ClientRoutes.Kernel.EnsureRoutes: does not delete IPv6 defaults, and takes routes as `toRoute` gives them: IPv4, one next hop, a nonzero link, one route per destination and priority, no malformed destination.
- Tunnel.ParseLocalCIDRs: the host bits of an IPv6 entry are part of its text and not cleared; an IPv6 endpoint counts as one that does not parse.
- PolicyRouting.ServerKernel.EnsureRule: a rule is the four fields `ruleMatches` compares, so rules that differ elsewhere are copies of each other; destinations are longer than zero (an accepted peerCIDR always is, as 192.0.2.1 is outside it), and gluetun's own rules are arbitrary rules at other priorities.
- Peers of other gateways: a cluster holds the peers of one gateway, so `getWireguardPeers`' filter, `markPeersWireguardNotFound` and peers re-pointed at another gateway are outside; a re-pointed peer would bring its old address along.
- Operator.Reconciler.Reconcile: the gateway's own status, the first pass that only sets it, pod annotations and requeue times are outside, since no peer or Secret depends on them.
- Deployment, Service and Secret builders, Server-Side Apply and the rollout check: rendering and API-server behaviour; whether they succeed is part of `World`.
- Injection policy, admission YAML and the client RoleBinding reconciler.
- Device.CreatePeersConfiguration: a device that cannot be read is not modelled, and the kernel applies each element of the list as a whole.
- `addressChanges`, `deviceConfig`, `deviceMatches`, `checkDevice`, `judgePeerPath`, `CreateWireguardConfiguration`, `syncRoute`: easy members.
- Link creation, iptables, gluetun health, HTTP server, file watching and key files: I/O.
- Time: creation stamps are integers, and a create sets a status without address.
