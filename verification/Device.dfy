/** The agent's diff of state.json against the live WireGuard device: createPeersConfiguration in
    internal/wireguard/wireguard.go. The device is cryptokey routing itself (section 2 of the WireGuard paper):
    each allowed IP belongs to one peer, so giving it to one takes it from another. */
module Device {
  import opened Sequences
  import opened Ipv4
  import opened Peers
  import opened StateJson
  import opened Safety

  datatype Device = Device(peers: set<nat>, owner: map<Prefix, nat>)

  /** A peer as the device reports it. */
  datatype DevicePeer = DevicePeer(key: nat, allowed: seq<Prefix>)

  datatype PeerConfig =
    | Remove(key: nat, allowed: seq<Prefix>)
    | Update(key: nat, allowed: seq<Prefix>)  // UpdateOnly and ReplaceAllowedIPs
    | Add(key: nat, allowed: seq<Prefix>)

  ghost predicate Valid(d: Device) {
    forall ip :: ip in d.owner ==> d.owner[ip] in d.peers
  }

  ghost function Allowed(d: Device, key: nat): set<Prefix> {
    set ip | ip in d.owner && d.owner[ip] == key
  }

  /** view reports d: every peer once, in some order, with its allowed IPs, in some order. */
  ghost predicate Reports(view: seq<DevicePeer>, d: Device) {
    && (forall i, j :: 0 <= i < j < |view| ==> view[i].key != view[j].key)
    && (forall v :: v in view ==> v.key in d.peers && Distinct(v.allowed) && Elements(v.allowed) == Allowed(d, v.key))
    && (forall key :: key in d.peers ==> exists v :: v in view && v.key == key)
  }

  // ---- the kernel's side ----

  function Drop(owner: map<Prefix, nat>, key: nat): map<Prefix, nat> {
    map ip | ip in owner && owner[ip] != key :: owner[ip]
  }

  function Give(owner: map<Prefix, nat>, key: nat, ips: seq<Prefix>): map<Prefix, nat> {
    if ips == [] then owner else Give(owner, key, ips[..|ips| - 1])[ips[|ips| - 1] := key]
  }

  /** One element of the configuration, as the kernel applies it. */
  function Configure(d: Device, c: PeerConfig): Device {
    match c
    case Remove(key, _) => Device(d.peers - {key}, Drop(d.owner, key))
    case Update(key, ips) => if key in d.peers then Device(d.peers, Give(Drop(d.owner, key), key, ips)) else d
    case Add(key, ips) => Device(d.peers + {key}, Give(d.owner, key, ips))
  }

  function ConfigureAll(d: Device, cs: seq<PeerConfig>): Device {
    if cs == [] then d else Configure(ConfigureAll(d, cs[..|cs| - 1]), cs[|cs| - 1])
  }

  // ---- createPeersConfiguration ----

  function HostRoute(a: Addr): Prefix {
    Prefix(a, 32)
  }

  /** The entry a map filled in list order holds for key: the last one. */
  function Lookup(entries: seq<Entry>, key: PublicKey): Option<Entry> {
    if entries == [] then None
    else if entries[|entries| - 1].key == key then Some(entries[|entries| - 1])
    else Lookup(entries[..|entries| - 1], key)
  }

  /** The allowed IPs state.json asks for; getIP fails on an address that is not one. */
  function Desired(a: Address): Option<seq<Prefix>> {
    match a
    case Unset => Some([])
    case Ip(ip) => Some([HostRoute(ip)])
    case Text(_) => None
  }

  /** What the loop over the device's peers decides for one of them: an error, nothing, or a change. */
  datatype Decision = Fails | Keeps | Changes(config: PeerConfig)

  function Decide(entries: seq<Entry>, v: DevicePeer): Decision {
    match Lookup(entries, Key(v.key))
    case None => Changes(Remove(v.key, v.allowed))
    case Some(e) =>
      match Desired(e.address)
      case None => Fails
      case Some(want) => if want == v.allowed then Keeps else Changes(Update(v.key, want))
  }

  /** What the loop over the state's peers decides for one of them. */
  function DecideNew(existing: set<nat>, e: Entry): Decision {
    if e.key == NoKey || e.address == Unset then Keeps
    else if e.key.BadKey? then Fails
    else if e.key.key in existing then Keeps
    else match Desired(e.address) case None => Fails case Some(want) => Changes(Add(e.key.key, want))
  }

  function Apply(configs: map<nat, PeerConfig>, d: Decision): map<nat, PeerConfig> {
    if d.Changes? then configs[d.config.key := d.config] else configs
  }

  function ForDevice(entries: seq<Entry>, view: seq<DevicePeer>): map<nat, PeerConfig> {
    if view == [] then map[]
    else Apply(ForDevice(entries, view[..|view| - 1]), Decide(entries, view[|view| - 1]))
  }

  function ForState(configs: map<nat, PeerConfig>, existing: set<nat>, entries: seq<Entry>): map<nat, PeerConfig> {
    if entries == [] then configs
    else Apply(ForState(configs, existing, entries[..|entries| - 1]), DecideNew(existing, entries[|entries| - 1]))
  }

  function KeysOfView(view: seq<DevicePeer>): set<nat> {
    set v | v in view :: v.key
  }

  function Configs(entries: seq<Entry>, view: seq<DevicePeer>): map<nat, PeerConfig> {
    ForState(ForDevice(entries, view), KeysOfView(view), entries)
  }

  ghost predicate Fallible(entries: seq<Entry>, view: seq<DevicePeer>) {
    || (exists v :: v in view && Decide(entries, v).Fails?)
    || (exists e :: e in entries && DecideNew(KeysOfView(view), e).Fails?)
  }

  ghost predicate SelfKeyed(configs: map<nat, PeerConfig>) {
    forall key :: key in configs ==> configs[key].key == key
  }

  /** cs holds the values of configs, each once, in some order. */
  ghost predicate Lists(cs: seq<PeerConfig>, configs: map<nat, PeerConfig>) {
    && (forall i, j :: 0 <= i < j < |cs| ==> cs[i].key != cs[j].key)
    && (forall c :: c in cs ==> c.key in configs && configs[c.key] == c)
    && (forall key :: key in configs ==> configs[key] in cs)
  }

  /** The three maps, the two loops and the listing of the last map in an order Go leaves open. */
  method CreatePeersConfiguration(entries: seq<Entry>, view: seq<DevicePeer>) returns (r: Option<seq<PeerConfig>>)
    ensures r.None? <==> Fallible(entries, view)
    ensures r.Some? ==> Lists(r.value, Configs(entries, view))
  {
    var peersState := StateByKey(entries);
    var changed := DiffDevice(entries, peersState, view);
    if changed.None? {
      return None;
    }
    var existing := set v | v in view :: v.key;
    var all := AddMissing(changed.value, existing, entries);
    if all.None? {
      return None;
    }
    KeysAgree(entries, view);
    var l := ListValues(all.value);
    r := Some(l);
  }

  /** The loop over the device's peers. */
  method DiffDevice(ghost entries: seq<Entry>, peersState: map<PublicKey, Entry>, view: seq<DevicePeer>) returns (r: Option<map<nat, PeerConfig>>)
    requires forall key :: Lookup(entries, key) == if key in peersState then Some(peersState[key]) else None
    ensures r.None? <==> exists v :: v in view && Decide(entries, v).Fails?
    ensures r.Some? ==> r.value == ForDevice(entries, view)
  {
    var configs: map<nat, PeerConfig> := map[];
    for i := 0 to |view|
      invariant configs == ForDevice(entries, view[..i])
      invariant forall j :: 0 <= j < i ==> !Decide(entries, view[j]).Fails?
    {
      assert view[..i + 1][..i] == view[..i];
      var v := view[i];
      assert v in view;
      if Key(v.key) !in peersState {
        configs := configs[v.key := Remove(v.key, v.allowed)];
      } else {
        var want := Desired(peersState[Key(v.key)].address);
        if want.None? {
          return None;
        }
        if want.value != v.allowed {
          configs := configs[v.key := Update(v.key, want.value)];
        }
      }
    }
    assert view[..|view|] == view;
    r := Some(configs);
  }

  /** The loop that adds new peers. */
  method AddMissing(changed: map<nat, PeerConfig>, existing: set<nat>, entries: seq<Entry>) returns (r: Option<map<nat, PeerConfig>>)
    ensures r.None? <==> exists e :: e in entries && DecideNew(existing, e).Fails?
    ensures r.Some? ==> r.value == ForState(changed, existing, entries)
  {
    var configs := changed;
    for i := 0 to |entries|
      invariant configs == ForState(changed, existing, entries[..i])
      invariant forall j :: 0 <= j < i ==> !DecideNew(existing, entries[j]).Fails?
    {
      assert entries[..i + 1][..i] == entries[..i];
      var e := entries[i];
      assert e in entries;
      if e.key == NoKey || e.address == Unset {
        continue;
      }
      if e.key.BadKey? {
        return None;
      }
      if e.key.key in existing {
        continue;
      }
      var allowed := Desired(e.address);
      if allowed.None? {
        return None;
      }
      configs := configs[e.key.key := Add(e.key.key, allowed.value)];
    }
    assert entries[..|entries|] == entries;
    r := Some(configs);
  }

  /** peersState. */
  method StateByKey(entries: seq<Entry>) returns (byKey: map<PublicKey, Entry>)
    ensures forall key :: Lookup(entries, key) == if key in byKey then Some(byKey[key]) else None
  {
    byKey := map[];
    for i := 0 to |entries|
      invariant forall key :: Lookup(entries[..i], key) == if key in byKey then Some(byKey[key]) else None
    {
      assert entries[..i + 1][..i] == entries[..i];
      byKey := byKey[entries[i].key := entries[i]];
    }
    assert entries[..|entries|] == entries;
  }

  /** Ranging over a map: any order. */
  method ListValues(configs: map<nat, PeerConfig>) returns (cs: seq<PeerConfig>)
    requires SelfKeyed(configs)
    ensures Lists(cs, configs)
  {
    cs := [];
    var left := configs.Keys;
    while left != {}
      invariant left <= configs.Keys
      invariant forall i, j :: 0 <= i < j < |cs| ==> cs[i].key != cs[j].key
      invariant forall c :: c in cs ==> c.key in configs && c.key !in left && configs[c.key] == c
      invariant forall key :: key in configs && key !in left ==> configs[key] in cs
      decreases |left|
    {
      var key :| key in left;
      cs, left := cs + [configs[key]], left - {key};
    }
  }

  lemma {:induction false} KeysAgree(entries: seq<Entry>, view: seq<DevicePeer>)
    ensures SelfKeyed(Configs(entries, view))
  {
    ForDeviceKeys(entries, view);
    ForStateKeys(ForDevice(entries, view), KeysOfView(view), entries);
  }

  lemma {:induction false} ForDeviceKeys(entries: seq<Entry>, view: seq<DevicePeer>)
    ensures SelfKeyed(ForDevice(entries, view))
  {
    if view != [] {
      ForDeviceKeys(entries, view[..|view| - 1]);
    }
  }

  lemma {:induction false} ForStateKeys(configs: map<nat, PeerConfig>, existing: set<nat>, entries: seq<Entry>)
    requires SelfKeyed(configs)
    ensures SelfKeyed(ForState(configs, existing, entries))
  {
    if entries != [] {
      ForStateKeys(configs, existing, entries[..|entries| - 1]);
    }
  }

  // ---- when it fails, and entries without an address ----

  /** entries[i] is the last entry with its key: the one that counts. */
  ghost predicate LastWithKey(entries: seq<Entry>, i: nat) {
    i < |entries| && forall j :: i < j < |entries| ==> entries[j].key != entries[i].key
  }

  lemma {:induction false} LookupIsLast(entries: seq<Entry>, key: PublicKey)
    ensures Lookup(entries, key).None? <==> forall e :: e in entries ==> e.key != key
    ensures Lookup(entries, key).Some? ==>
      exists i: nat :: LastWithKey(entries, i) && entries[i].key == key && entries[i] == Lookup(entries, key).value
  {
    if entries != [] {
      var front, last := entries[..|entries| - 1], entries[|entries| - 1];
      LookupIsLast(front, key);
      assert entries == front + [last];
      if last.key == key {
        assert LastWithKey(entries, |entries| - 1);
      } else if Lookup(front, key).Some? {
        var i: nat :| LastWithKey(front, i) && front[i].key == key && front[i] == Lookup(front, key).value;
        assert LastWithKey(entries, i) && entries[i] == front[i];
      }
    }
  }

  lemma LastIsLookup(entries: seq<Entry>, i: nat)
    requires LastWithKey(entries, i)
    ensures Lookup(entries, entries[i].key) == Some(entries[i])
  {
    LookupIsLast(entries, entries[i].key);
    assert entries[i] in entries;
    var j: nat :| LastWithKey(entries, j) && entries[j].key == entries[i].key && entries[j] == Lookup(entries, entries[i].key).value;
    assert i == j;
  }

  /** Over any state and any device, the diff fails exactly when the entry that counts for a device peer has an address
      that does not parse, or an entry with a key and an address has a key that does not parse, or is for a new peer
      and has such an address. An entry without a key or without an address never makes it fail. */
  lemma FailsIff(entries: seq<Entry>, view: seq<DevicePeer>)
    ensures Fallible(entries, view) <==>
      || (exists v, i: nat :: v in view && LastWithKey(entries, i) && entries[i].key == Key(v.key) && entries[i].address.Text?)
      || (exists e :: e in entries && e.key != NoKey && e.address != Unset
            && (e.key.BadKey? || (e.address.Text? && forall v :: v in view ==> v.key != e.key.key)))
  {
    forall v | v in view
      ensures Decide(entries, v).Fails? <==>
        exists i: nat :: LastWithKey(entries, i) && entries[i].key == Key(v.key) && entries[i].address.Text?
    {
      LookupIsLast(entries, Key(v.key));
      if i: nat :| LastWithKey(entries, i) && entries[i].key == Key(v.key) && entries[i].address.Text? {
        LastIsLookup(entries, i);
      }
    }
    forall e | e in entries && e.key.Key?
      ensures e.key.key !in KeysOfView(view) <==> forall v :: v in view ==> v.key != e.key.key
    {
    }
  }

  /** A device peer whose entry has no address is left with no allowed IP. */
  lemma WithoutAddress(entries: seq<Entry>, v: DevicePeer, i: nat)
    requires LastWithKey(entries, i) && entries[i].key == Key(v.key) && entries[i].address == Unset
    ensures Decide(entries, v) == if v.allowed == [] then Keeps else Changes(Update(v.key, []))
  {
    LastIsLookup(entries, i);
  }

  // ---- what the configuration says, key by key ----

  /** Distinct canonical keys and distinct addresses: what every safe state has. */
  ghost predicate GoodEntries(entries: seq<Entry>) {
    && (forall e :: e in entries ==> e.key.Key? && e.address.Ip?)
    && (forall i, j :: 0 <= i < j < |entries| ==> entries[i].key != entries[j].key && entries[i].address != entries[j].address)
  }

  lemma SafeIsGood(s: State)
    requires Safe(s)
    ensures GoodEntries(s.peers)
  {
  }

  /** The single /32 state.json asks for, per key. */
  function Want(entries: seq<Entry>): map<nat, Prefix>
    requires forall e :: e in entries ==> e.key.Key? && e.address.Ip?
  {
    if entries == [] then map[] else
    var e := entries[|entries| - 1];
    Want(entries[..|entries| - 1])[e.key.key := HostRoute(e.address.ip)]
  }

  lemma {:induction false} WantIsLookup(entries: seq<Entry>, key: nat)
    requires forall e :: e in entries ==> e.key.Key? && e.address.Ip?
    ensures key in Want(entries) <==> Lookup(entries, Key(key)).Some?
    ensures key in Want(entries) ==>
      Desired(Lookup(entries, Key(key)).value.address) == Some([Want(entries)[key]]) && Lookup(entries, Key(key)).value in entries
  {
    if entries != [] {
      WantIsLookup(entries[..|entries| - 1], key);
    }
  }

  lemma {:induction false} WantEntries(entries: seq<Entry>)
    requires GoodEntries(entries)
    ensures forall key :: key in Want(entries) <==> exists e :: e in entries && e.key == Key(key)
    ensures forall e :: e in entries ==> e.key.key in Want(entries) && Want(entries)[e.key.key] == HostRoute(e.address.ip)
  {
    if entries != [] {
      var front, last := entries[..|entries| - 1], entries[|entries| - 1];
      WantEntries(front);
      assert entries == front + [last];
    }
  }

  lemma WantInjective(entries: seq<Entry>, k: nat, k': nat)
    requires GoodEntries(entries) && k in Want(entries) && k' in Want(entries) && k != k'
    ensures Want(entries)[k] != Want(entries)[k']
  {
    WantEntries(entries);
    var e :| e in entries && e.key == Key(k);
    var e' :| e' in entries && e'.key == Key(k');
    var i :| 0 <= i < |entries| && entries[i] == e;
    var j :| 0 <= j < |entries| && entries[j] == e';
  }

  lemma {:induction false} ForDeviceAbsent(entries: seq<Entry>, view: seq<DevicePeer>, key: nat)
    requires forall v :: v in view ==> v.key != key
    ensures key !in ForDevice(entries, view)
  {
    if view != [] {
      ForDeviceAbsent(entries, view[..|view| - 1], key);
      assert view[|view| - 1] in view;
    }
  }

  lemma {:induction false} ForDeviceAt(entries: seq<Entry>, view: seq<DevicePeer>, i: nat)
    requires i < |view| && forall i, j :: 0 <= i < j < |view| ==> view[i].key != view[j].key
    ensures var key, configs := view[i].key, ForDevice(entries, view);
      && (key in configs <==> Decide(entries, view[i]).Changes?)
      && (key in configs ==> configs[key] == Decide(entries, view[i]).config)
  {
    var front := view[..|view| - 1];
    if i == |front| {
      ForDeviceAbsent(entries, front, view[i].key);
    } else {
      ForDeviceAt(entries, front, i);
      assert front[i] == view[i];
    }
  }

  lemma {:induction false} ForStateAt(configs: map<nat, PeerConfig>, existing: set<nat>, entries: seq<Entry>, key: nat)
    requires forall e :: e in entries ==> e.key.Key? && e.address.Ip?
    ensures var all := ForState(configs, existing, entries);
      if key in Want(entries) && key !in existing
      then key in all && all[key] == Add(key, [Want(entries)[key]])
      else (key in all <==> key in configs) && (key in configs ==> all[key] == configs[key])
  {
    if entries != [] {
      var front, last := entries[..|entries| - 1], entries[|entries| - 1];
      ForStateAt(configs, existing, front, key);
      assert last in entries;
    }
  }

  /** The configuration for a key, from what the device holds and the state wants. */
  ghost predicate ConfigFor(d: Device, want: map<nat, Prefix>, configs: map<nat, PeerConfig>, key: nat) {
    if key in d.peers && key !in want then key in configs && configs[key].Remove? && configs[key].key == key
    else if key in d.peers && Allowed(d, key) == {want[key]} then key !in configs
    else if key in d.peers then key in configs && configs[key] == Update(key, [want[key]])
    else if key in want then key in configs && configs[key] == Add(key, [want[key]])
    else key !in configs
  }

  lemma SingletonList(s: seq<Prefix>, ip: Prefix)
    requires Distinct(s)
    ensures s == [ip] <==> Elements(s) == {ip}
  {
    DistinctCardinality(s);
    if Elements(s) == {ip} {
      assert |s| == 1 && s[0] in Elements(s);
    }
    assert Elements([ip]) == {ip};
  }

  /** The configuration depends on the device only, not on the order it was reported in. */
  lemma ConfigsAre(d: Device, entries: seq<Entry>, view: seq<DevicePeer>, key: nat)
    requires Reports(view, d) && GoodEntries(entries)
    ensures ConfigFor(d, Want(entries), Configs(entries, view), key)
  {
    ForStateAt(ForDevice(entries, view), KeysOfView(view), entries, key);
    WantIsLookup(entries, key);
    if key in d.peers {
      var i :| 0 <= i < |view| && view[i].key == key;
      ForDeviceAt(entries, view, i);
      assert view[i] in view && key in KeysOfView(view);
      if key in Want(entries) {
        SingletonList(view[i].allowed, Want(entries)[key]);
      }
    } else {
      ForDeviceAbsent(entries, view, key);
    }
  }

  lemma NeverFails(entries: seq<Entry>, view: seq<DevicePeer>)
    requires GoodEntries(entries)
    ensures !Fallible(entries, view)
  {
    forall v | v in view
      ensures !Decide(entries, v).Fails?
    {
      WantIsLookup(entries, v.key);
    }
  }

  // ---- applying it in any order ----

  ghost predicate DoneIn(cs: seq<PeerConfig>, key: nat) {
    exists i :: 0 <= i < |cs| && cs[i].key == key
  }

  /** Where the device is once the configurations cs, a part of the whole, have been applied: a configured key
      has exactly its /32, any other owner has nothing it did not have before, and nobody took the /32 of a key
      that is done or needed no change. */
  ghost predicate Underway(d: Device, want: map<nat, Prefix>, configs: map<nat, PeerConfig>, cs: seq<PeerConfig>, now: Device) {
    && (forall key :: key in now.peers <==> if DoneIn(cs, key) then key in want else key in d.peers)
    && (forall ip :: ip in now.owner ==>
          var key := now.owner[ip];
          if DoneIn(cs, key) then key in want && ip == want[key] else ip in d.owner && d.owner[ip] == key)
    && (forall key :: key in want && (DoneIn(cs, key) || key !in configs) ==>
          want[key] in now.owner && now.owner[want[key]] == key)
  }

  ghost predicate Injective(want: map<nat, Prefix>) {
    forall k, k' :: k in want && k' in want && k != k' ==> want[k] != want[k']
  }

  lemma GiveOne(owner: map<Prefix, nat>, key: nat, ip: Prefix)
    ensures Give(owner, key, [ip]) == owner[ip := key]
  {
    assert [ip][..0] == [];
  }

  lemma DoneAppend(cs: seq<PeerConfig>, c: PeerConfig, key: nat)
    ensures DoneIn(cs + [c], key) <==> DoneIn(cs, key) || c.key == key
  {
    if DoneIn(cs, key) {
      var i :| 0 <= i < |cs| && cs[i].key == key;
      assert (cs + [c])[i].key == key;
    }
    assert (cs + [c])[|cs|] == c;
  }

  lemma ConfigureRemove(d: Device, want: map<nat, Prefix>, configs: map<nat, PeerConfig>, cs: seq<PeerConfig>, now: Device, c: PeerConfig)
    requires Underway(d, want, configs, cs, now) && c.Remove? && c.key !in want
    ensures Underway(d, want, configs, cs + [c], Configure(now, c))
  {
    forall key
      ensures DoneIn(cs + [c], key) <==> DoneIn(cs, key) || c.key == key
    {
      DoneAppend(cs, c, key);
    }
  }

  lemma ConfigureGive(d: Device, want: map<nat, Prefix>, configs: map<nat, PeerConfig>, cs: seq<PeerConfig>, now: Device, c: PeerConfig)
    requires Underway(d, want, configs, cs, now) && Injective(want) && Valid(d)
    requires c.key in want && !DoneIn(cs, c.key) && c.allowed == [want[c.key]]
    requires (c.Update? && c.key in d.peers) || (c.Add? && c.key !in d.peers)
    ensures Underway(d, want, configs, cs + [c], Configure(now, c))
  {
    forall key
      ensures DoneIn(cs + [c], key) <==> DoneIn(cs, key) || c.key == key
    {
      DoneAppend(cs, c, key);
    }
    GiveOne(now.owner, c.key, want[c.key]);
    GiveOne(Drop(now.owner, c.key), c.key, want[c.key]);
  }

  lemma {:induction false} AppliedInAnyOrder(d: Device, want: map<nat, Prefix>, configs: map<nat, PeerConfig>, cs: seq<PeerConfig>)
    requires Valid(d) && Injective(want) && forall key :: ConfigFor(d, want, configs, key)
    requires forall i, j :: 0 <= i < j < |cs| ==> cs[i].key != cs[j].key
    requires forall c :: c in cs ==> c.key in configs && configs[c.key] == c
    ensures Underway(d, want, configs, cs, ConfigureAll(d, cs))
  {
    if cs == [] {
      forall key | key in want && key !in configs
        ensures want[key] in d.owner && d.owner[want[key]] == key
      {
        assert ConfigFor(d, want, configs, key);
        assert want[key] in Allowed(d, key);
      }
    } else {
      var front, c := cs[..|cs| - 1], cs[|cs| - 1];
      AppliedInAnyOrder(d, want, configs, front);
      assert cs == front + [c] && c in cs;
      assert ConfigFor(d, want, configs, c.key);
      if c.Remove? {
        ConfigureRemove(d, want, configs, front, ConfigureAll(d, front), c);
      } else {
        ConfigureGive(d, want, configs, front, ConfigureAll(d, front), c);
      }
    }
  }

  // ---- exactness ----

  /** The device has exactly the wanted peers, each with exactly its /32. */
  ghost predicate Exact(d: Device, want: map<nat, Prefix>) {
    && d.peers == want.Keys
    && forall key :: key in want ==> Allowed(d, key) == {want[key]}
  }

  lemma ExactWhenDone(d: Device, want: map<nat, Prefix>, configs: map<nat, PeerConfig>, cs: seq<PeerConfig>, now: Device)
    requires Valid(d) && (forall key :: ConfigFor(d, want, configs, key)) && Underway(d, want, configs, cs, now)
    requires forall key :: DoneIn(cs, key) <==> key in configs
    ensures Exact(now, want) && Valid(now)
  {
    forall key
      ensures key in now.peers <==> key in want
    {
      assert ConfigFor(d, want, configs, key);
    }
    forall ip | ip in now.owner
      ensures now.owner[ip] in want && ip == want[now.owner[ip]]
    {
      var key := now.owner[ip];
      assert ConfigFor(d, want, configs, key);
      if key !in configs {
        assert ip in Allowed(d, key);
      }
    }
  }

  /** Device exactness: for any device and any state with distinct canonical keys and distinct addresses, applying
      the computed list in any order leaves exactly one device peer per state peer with exactly its /32, despite
      allowed IPs moving between peers on the way; no peer the state lists is ever removed; and a second
      computation, however the device is then reported, yields the empty list. */
  lemma SyncIsExact(d: Device, entries: seq<Entry>, view: seq<DevicePeer>, cs: seq<PeerConfig>, view': seq<DevicePeer>)
    requires Valid(d) && Reports(view, d) && GoodEntries(entries) && Lists(cs, Configs(entries, view))
    requires Reports(view', ConfigureAll(d, cs))
    ensures Exact(ConfigureAll(d, cs), Want(entries))
    ensures forall key, a :: Reaches(ConfigureAll(d, cs), key, a) <==> Assigns(entries, key, a)
    ensures forall key :: key in ConfigureAll(d, cs).peers <==> exists e :: e in entries && e.key == Key(key)
    ensures forall c :: c in cs && c.Remove? ==> c.key !in Want(entries)
    ensures Configs(entries, view') == map[]
  {
    var want, configs, now := Want(entries), Configs(entries, view), ConfigureAll(d, cs);
    forall k, k' | k in want && k' in want && k != k'
      ensures want[k] != want[k']
    {
      WantInjective(entries, k, k');
    }
    forall key
      ensures ConfigFor(d, want, configs, key)
      ensures DoneIn(cs, key) <==> key in configs
    {
      ConfigsAre(d, entries, view, key);
      if key in configs {
        var i :| 0 <= i < |cs| && cs[i] == configs[key];
        assert cs[i].key == key by { KeysAgree(entries, view); }
      }
    }
    AppliedInAnyOrder(d, want, configs, cs);
    ExactWhenDone(d, want, configs, cs, now);
    forall c | c in cs && c.Remove?
      ensures c.key !in want
    {
      assert ConfigFor(d, want, configs, c.key);
    }
    ExactIsIdle(now, entries, view');
    WantEntries(entries);
    forall key, a
      ensures Reaches(now, key, a) <==> Assigns(entries, key, a)
    {
      ExactByAddress(now, entries, key, a);
    }
  }

  /** Cryptokey routing takes packets for a to the peer with this key. */
  ghost predicate Reaches(d: Device, key: nat, a: Addr) {
    exists ip :: ip in Allowed(d, key) && Contains(ip, a)
  }

  /** state.json gives a to the peer with this key. */
  ghost predicate Assigns(entries: seq<Entry>, key: nat, a: Addr) {
    exists e :: e in entries && e.key == Key(key) && e.address == Ip(a)
  }

  lemma HostRouteIsOneAddress(a: Addr, b: Addr)
    ensures Contains(HostRoute(a), b) <==> a == b
  {
    PrefixInterval(HostRoute(a), b);
  }

  /** On an exact device each peer is reached by its own address and by no other. */
  lemma ExactByAddress(now: Device, entries: seq<Entry>, key: nat, a: Addr)
    requires GoodEntries(entries) && Valid(now) && Exact(now, Want(entries))
    ensures Reaches(now, key, a) <==> Assigns(entries, key, a)
  {
    WantEntries(entries);
    if key in Want(entries) {
      var e :| e in entries && e.key == Key(key);
      HostRouteIsOneAddress(e.address.ip, a);
      assert HostRoute(e.address.ip) in Allowed(now, key);
      if f :| f in entries && f.key == Key(key) && f.address == Ip(a) {
        assert Want(entries)[key] == HostRoute(a);
        HostRouteIsOneAddress(a, e.address.ip);
        HostRouteIsOneAddress(a, a);
      }
    }
  }

  /** A device that is as the state wants it needs no change. */
  lemma ExactIsIdle(now: Device, entries: seq<Entry>, view: seq<DevicePeer>)
    requires GoodEntries(entries) && Valid(now) && Exact(now, Want(entries)) && Reports(view, now)
    ensures Configs(entries, view) == map[]
  {
    forall key
      ensures key !in Configs(entries, view)
    {
      ConfigsAre(now, entries, view, key);
    }
  }

  /** While the list is being applied, a peer the device already had and the state lists stays a peer, and one
      that already had exactly its /32 keeps it, at every point. */
  lemma SessionsSurvive(d: Device, entries: seq<Entry>, view: seq<DevicePeer>, cs: seq<PeerConfig>, n: nat, key: nat)
    requires Valid(d) && Reports(view, d) && GoodEntries(entries) && Lists(cs, Configs(entries, view)) && n <= |cs|
    requires key in d.peers && key in Want(entries)
    ensures key in ConfigureAll(d, cs[..n]).peers
    ensures Allowed(d, key) == {Want(entries)[key]} ==>
      Want(entries)[key] in ConfigureAll(d, cs[..n]).owner && ConfigureAll(d, cs[..n]).owner[Want(entries)[key]] == key
  {
    var want, configs := Want(entries), Configs(entries, view);
    forall k, k' | k in want && k' in want && k != k'
      ensures want[k] != want[k']
    {
      WantInjective(entries, k, k');
    }
    forall k
      ensures ConfigFor(d, want, configs, k)
    {
      ConfigsAre(d, entries, view, k);
    }
    AppliedInAnyOrder(d, want, configs, cs[..n]);
    assert ConfigFor(d, want, configs, key);
  }
}
