/** state.json, the operator's only message to the agent: desiredState, admittedKeys and IsStateValid
    (internal/controller/peers.go, internal/controller/wireguard_controller.go, internal/agent/agent.go). */
module StateJson {
  import opened Sequences
  import opened Ipv4
  import opened Gateway
  import opened Peers

  /** What state.json says of one peer. wireguardRef is the gateway's own name for every listed peer. */
  datatype Entry = Entry(id: PeerId, key: PublicKey, address: Address)

  /** The server spec is rendered without spec.gluetun. */
  datatype State = State(server: Spec, privateKey: string, peers: seq<Entry>)

  /** The Secret of a gateway; the state is None when state.json does not parse. */
  datatype Secret = Secret(privateKey: string, publicKey: PublicKey, state: Option<State>)

  // ---- specification ----

  function EntryOf(p: Peer): Entry {
    Entry(p.id, p.key, p.status.address)
  }

  function EntriesOf(peers: seq<Peer>): seq<Entry> {
    seq(|peers|, i requires 0 <= i < |peers| => EntryOf(peers[i]))
  }

  function Insert(e: Entry, sorted: seq<Entry>): seq<Entry> {
    if sorted == [] || !IdLess(sorted[0].id, e.id) then [e] + sorted else [sorted[0]] + Insert(e, sorted[1..])
  }

  function Sort(es: seq<Entry>): seq<Entry> {
    if es == [] then [] else Insert(es[0], Sort(es[1..]))
  }

  function Render(gw: Spec, privateKey: string, peers: seq<Peer>): State {
    State(gw, privateKey, Sort(EntriesOf(peers)))
  }

  function KeysOf(entries: seq<Entry>): map<PeerId, PublicKey> {
    if entries == [] then map[] else
    var e := entries[|entries| - 1];
    KeysOf(entries[..|entries| - 1])[e.id := e.key]
  }

  /** The keys the server is serving: none before the Secret exists or while its state is unreadable. */
  function ServedKeys(secret: Option<Secret>): map<PeerId, PublicKey> {
    if secret.None? || secret.value.state.None? then map[] else KeysOf(secret.value.state.value.peers)
  }

  predicate IsStateValid(s: State) {
    |s.privateKey| == 44 && forall e :: e in s.peers ==> e.address != Unset && e.key != NoKey
  }

  /** The agent rejects a state for its private key, or for a peer without an address or without a key. */
  lemma RejectedIff(s: State)
    ensures !IsStateValid(s) <==> |s.privateKey| != 44 || exists e :: e in s.peers && (e.address == Unset || e.key == NoKey)
  {
  }

  ghost predicate DistinctEntryIds(es: seq<Entry>) {
    forall i, j :: 0 <= i < j < |es| ==> es[i].id != es[j].id
  }

  ghost predicate Sorted(es: seq<Entry>) {
    forall i, j :: 0 <= i < j < |es| ==> IdLess(es[i].id, es[j].id)
  }

  // ---- methods ----

  /** desiredState: one entry per peer, then slices.SortFunc by name and namespace. */
  method DesiredState(gw: Spec, privateKey: string, peers: seq<Peer>) returns (s: State)
    ensures s == Render(gw, privateKey, peers)
  {
    var rendered := [];
    for i := 0 to |peers|
      invariant rendered == EntriesOf(peers[..i])
    {
      rendered := rendered + [Entry(peers[i].id, peers[i].key, peers[i].status.address)];
    }
    assert peers[..|peers|] == peers;
    s := State(gw, privateKey, Sort(rendered));
  }

  /** admittedKeys, once the Secret has been read. */
  method AdmittedKeys(secret: Option<Secret>) returns (keys: map<PeerId, PublicKey>)
    ensures keys == ServedKeys(secret)
  {
    keys := map[];
    if secret.None? || secret.value.state.None? {
      return;
    }
    var entries := secret.value.state.value.peers;
    for i := 0 to |entries|
      invariant keys == KeysOf(entries[..i])
    {
      assert entries[..i + 1][..i] == entries[..i];
      keys := keys[entries[i].id := entries[i].key];
    }
    assert entries[..|entries|] == entries;
  }

  // ---- sorting ----

  lemma {:induction false} InsertSorts(e: Entry, es: seq<Entry>)
    requires Sorted(es) && forall x :: x in es ==> x.id != e.id
    ensures Sorted(Insert(e, es))
    ensures Elements(Insert(e, es)) == Elements(es) + {e} && |Insert(e, es)| == |es| + 1
  {
    if es != [] && IdLess(es[0].id, e.id) {
      var rest := Insert(e, es[1..]);
      InsertSorts(e, es[1..]);
      assert forall x :: x in rest ==> x in Elements(es[1..]) + {e};
      SortedCons(es[0], rest);
      assert es == [es[0]] + es[1..];
    } else {
      forall x | x in es
        ensures IdLess(e.id, x.id)
      {
        IdLessStrictTotal(es[0].id, e.id);
        assert es[0] in es;
        if x != es[0] {
          IdLessTransitive(e.id, es[0].id, x.id);
        }
      }
      SortedCons(e, es);
    }
  }

  lemma SortedCons(e: Entry, es: seq<Entry>)
    requires Sorted(es) && forall x :: x in es ==> IdLess(e.id, x.id)
    ensures Sorted([e] + es) && Elements([e] + es) == Elements(es) + {e}
  {
  }

  lemma {:induction false} SortSorts(es: seq<Entry>)
    requires DistinctEntryIds(es)
    ensures Sorted(Sort(es)) && Elements(Sort(es)) == Elements(es) && |Sort(es)| == |es|
  {
    if es != [] {
      SortSorts(es[1..]);
      assert forall x :: x in Sort(es[1..]) ==> x in Elements(es[1..]);
      InsertSorts(es[0], Sort(es[1..]));
      assert es == [es[0]] + es[1..];
    }
  }

  lemma SortedLast(a: seq<Entry>, b: seq<Entry>)
    requires a != [] && b != [] && Sorted(a) && Sorted(b) && Elements(a) == Elements(b)
    ensures a[|a| - 1] == b[|b| - 1]
  {
    var x, y := a[|a| - 1], b[|b| - 1];
    assert x in Elements(b) && y in Elements(a);
    IdLessStrictTotal(x.id, y.id);
  }

  lemma SortedFront(a: seq<Entry>)
    requires a != [] && Sorted(a)
    ensures Sorted(a[..|a| - 1]) && Elements(a[..|a| - 1]) == Elements(a) - {a[|a| - 1]}
  {
    var front, last := a[..|a| - 1], a[|a| - 1];
    IdLessStrictTotal(last.id, last.id);
    assert a == front + [last] && last !in front;
  }

  /** A strictly sorted list is determined by its elements. */
  lemma {:induction false} SortedUnique(a: seq<Entry>, b: seq<Entry>)
    requires Sorted(a) && Sorted(b) && Elements(a) == Elements(b)
    ensures a == b
  {
    ElementsEmpty(a);
    ElementsEmpty(b);
    if a != [] && b != [] {
      SortedLast(a, b);
      SortedFront(a);
      SortedFront(b);
      SortedUnique(a[..|a| - 1], b[..|b| - 1]);
      assert a == a[..|a| - 1] + [a[|a| - 1]] && b == b[..|b| - 1] + [b[|b| - 1]];
    }
  }

  // ---- rendering is canonical and reads back ----

  lemma EntriesDistinct(peers: seq<Peer>)
    requires DistinctIds(peers)
    ensures DistinctEntryIds(EntriesOf(peers))
    ensures forall e :: e in EntriesOf(peers) <==> exists p :: p in peers && EntryOf(p) == e
  {
    forall p | p in peers
      ensures EntryOf(p) in EntriesOf(peers)
    {
      var i :| 0 <= i < |peers| && peers[i] == p;
      assert EntriesOf(peers)[i] == EntryOf(p);
    }
  }

  /** The entries of a rendered state are those of its peers, in a strictly increasing order. */
  lemma RenderedEntries(gw: Spec, privateKey: string, peers: seq<Peer>)
    requires DistinctIds(peers)
    ensures var s := Render(gw, privateKey, peers);
      && Sorted(s.peers)
      && |s.peers| == |peers|
      && forall e :: e in s.peers <==> exists p :: p in peers && EntryOf(p) == e
  {
    EntriesDistinct(peers);
    var es := EntriesOf(peers);
    SortSorts(es);
    assert forall e :: e in Sort(es) <==> e in Elements(Sort(es));
    assert forall e :: e in es <==> e in Elements(es);
  }

  lemma SortedDistinct(es: seq<Entry>)
    requires Sorted(es)
    ensures DistinctEntryIds(es)
  {
    forall i, j | 0 <= i < j < |es|
      ensures es[i].id != es[j].id
    {
      IdLessStrictTotal(es[i].id, es[i].id);
    }
  }

  /** Rendering is canonical: any two lists of peers that agree on id, key and address, in whatever order
      and whatever their other fields say, render the same state. */
  lemma RenderCanonical(gw: Spec, privateKey: string, peers: seq<Peer>, peers': seq<Peer>)
    requires DistinctIds(peers) && DistinctIds(peers')
    requires Elements(EntriesOf(peers)) == Elements(EntriesOf(peers'))
    ensures Render(gw, privateKey, peers) == Render(gw, privateKey, peers')
  {
    EntriesDistinct(peers);
    EntriesDistinct(peers');
    SortSorts(EntriesOf(peers));
    SortSorts(EntriesOf(peers'));
    SortedUnique(Sort(EntriesOf(peers)), Sort(EntriesOf(peers')));
  }

  lemma {:induction false} KeysOfLookup(es: seq<Entry>)
    requires DistinctEntryIds(es)
    ensures forall id :: id in KeysOf(es) <==> exists e :: e in es && e.id == id
    ensures forall e :: e in es ==> e.id in KeysOf(es) && KeysOf(es)[e.id] == e.key
  {
    if es != [] {
      var front, e := es[..|es| - 1], es[|es| - 1];
      KeysOfLookup(front);
      assert es == front + [e];
    }
  }

  /** The round trip: the keys read back from a rendered state are exactly those of its peers. */
  lemma KeysRoundTrip(gw: Spec, secret: Secret, peers: seq<Peer>)
    requires DistinctIds(peers)
    ensures var keys := ServedKeys(Some(secret.(state := Some(Render(gw, secret.privateKey, peers)))));
      && (forall p :: p in peers ==> p.id in keys && keys[p.id] == p.key)
      && (forall id :: id in keys ==> exists p :: p in peers && p.id == id)
  {
    var s := Render(gw, secret.privateKey, peers);
    RenderedEntries(gw, secret.privateKey, peers);
    SortedDistinct(s.peers);
    KeysOfLookup(s.peers);
    forall p | p in peers
      ensures p.id in KeysOf(s.peers) && KeysOf(s.peers)[p.id] == p.key
    {
      assert EntryOf(p) in s.peers;
    }
  }
}
