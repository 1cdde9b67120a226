/** The event handlers of the audio service, each one atomic step on the registry, and runs of them. */
module AudioEvents {
  import opened Common
  import opened Numerals
  import opened AudioModel
  import opened AudioRefresh
  import opened AudioReferences
  import opened AudioRegistry

  const PW_CORE: nat := 0
  const SOURCE_KEYS := {"default.audio.source", "default.configured.audio.source"}
  const SINK_KEYS := {"default.audio.sink", "default.configured.audio.sink"}
  const TARGET_KEYS := {"target.object", "node.target"}

  function StreamPath(node: nat): string {
    BASE + "/Streams/" + ToString(node)
  }

  /** Streams and their per-node index name each other. */
  ghost predicate StreamIndexAgrees(streams: map<string, Stream>, index: map<nat, string>) {
    (forall n <- index :: index[n] == StreamPath(n) && index[n] in streams && streams[index[n]].nodeId == n) &&
    (forall s <- streams :: streams[s].nodeId in index && index[streams[s].nodeId] == s)
  }

  ghost predicate Healthy(r: Registry)
    reads r
  {
    r.Valid() && StreamIndexAgrees(r.streams, r.streamPathsByNode)
  }

  lemma RetargetedAgrees(before: map<string, Stream>, after: map<string, Stream>, index: map<nat, string>)
    requires OnlyRetargeted(before, after) && StreamIndexAgrees(before, index)
    ensures StreamIndexAgrees(after, index)
  {
  }

  // ---------- cards ----------

  function Bound(cards: map<nat, map<nat, Route>>, card: nat, bound: bool): map<nat, map<nat, Route>> {
    if card in cards || !bound then cards else cards[card := map[]]
  }

  /** A newly bound card has not said yet whether it takes routes. */
  function BoundSupport(cards: map<nat, map<nat, Route>>, support: map<nat, bool>, card: nat, bound: bool): map<nat,
      bool> {
    if card in cards || !bound then support else support - {card}
  }

  /** A card that is bound anew has no routes and has not said whether it takes any; nothing else changes. */
  lemma BoundMeans(cards: map<nat, map<nat, Route>>, support: map<nat, bool>, card: nat, bound: bool)
    ensures var cards', support' := Bound(cards, card, bound), BoundSupport(cards, support, card, bound);
            if card in cards || !bound then cards' == cards && support' == support
            else card in cards' && cards'[card] == map[] && cards' - {card} == cards && card !in support' &&
                 support' == support - {card}
  {
  }

  /** Binding a card may fail and never replaces a bound one. */
  method BindDeviceProxy(r: Registry, card: U32, bound: bool)
    requires Healthy(r)
    modifies r`cards, r`routeSupport
    ensures Healthy(r)
    ensures r.cards == Bound(old(r.cards), card, bound)
    ensures r.routeSupport == BoundSupport(old(r.cards), old(r.routeSupport), card, bound)
  {
    if card in r.cards { return; }
    if !bound { return; }
    r.cards := r.cards[card := map[]];
    r.routeSupport := r.routeSupport - {card};
  }

  /** The card-less devices whose node name is one of those that imply the card. */
  function Orphans(devices: map<string, Device>, names: set<string>): set<string> {
    set p <- devices | devices[p].cardId == INVALID_ID && devices[p].nodeName != "" && devices[p].nodeName in names
  }

  function Adopted(devices: map<string, Device>, card: nat, orphans: set<string>): map<string, Device> {
    map p <- devices :: if p in orphans then devices[p].(cardId := card) else devices[p]
  }

  method AdoptDevices(r: Registry, card: nat, names: set<string>) returns (matchedAny: bool)
    modifies r`devices
    ensures r.devices == Adopted(old(r.devices), card, Orphans(old(r.devices), names))
    ensures matchedAny <==> Orphans(old(r.devices), names) != {}
  {
    hide Adopted, Orphans;
    matchedAny := false;
    ghost var before := r.devices;
    ghost var orphans := Orphans(before, names);
    var left := r.devices.Keys;
    OrphansAmong(before, names);
    NothingAdopted(before, card);
    assert orphans - left == {};
    while left != {}
      invariant left <= before.Keys && r.devices == Adopted(before, card, orphans - left)
      invariant matchedAny <==> orphans - left != {}
      decreases left
    {
      var p :| p in left;
      OneMoreAdopted(before, card, orphans, left, p);
      IsOrphan(before, names, p);
      left := left - {p};
      var d := r.devices[p];
      if d.cardId != INVALID_ID || d.nodeName == "" { continue; }
      if d.nodeName in names {
        r.devices := r.devices[p := d.(cardId := card)];
        matchedAny := true;
      }
    }
    assert orphans - {} == orphans;
  }

  lemma OrphansAmong(devices: map<string, Device>, names: set<string>)
    ensures Orphans(devices, names) <= devices.Keys
  {
  }

  lemma IsOrphan(devices: map<string, Device>, names: set<string>, p: string)
    requires p in devices
    ensures p in Orphans(devices, names) <==>
            devices[p].cardId == INVALID_ID && devices[p].nodeName != "" && devices[p].nodeName in names
  {
  }

  /** One more device looked at. */
  lemma OneMoreAdopted(devices: map<string, Device>, card: nat, orphans: set<string>, left: set<string>, p: string)
    requires p in left && p in devices
    ensures var done, next := orphans - left, orphans - (left - {p});
            p in Adopted(devices, card, done) && Adopted(devices, card, done)[p] == devices[p] &&
            next == (if p in orphans then done + {p} else done) &&
            Adopted(devices, card, next) ==
              if p in orphans then Adopted(devices, card, done)[p := devices[p].(cardId := card)]
              else Adopted(devices, card, done)
  {
    var done := orphans - left;
    assert orphans - (left - {p}) == if p in orphans then done + {p} else done;
  }

  /** A card global: `names` are the node names from which this card's id is inferred, `named` whether it has a name.
      The card's new description comes too late for the refresh its adoptions cause. */
  method HandleCardGlobal(r: Registry, card: U32, named: bool, names: set<string>, description: string, bound: bool)
    requires Healthy(r)
    modifies r`devices, r`pathsByNode, r`streams, r`activeInput, r`activeOutput, r`pendingInput, r`pendingOutput,
        r`cards,
             r`routeSupport, r`cardDescriptions
    ensures Healthy(r)
    ensures var orphans := if named then Orphans(old(r.devices), names) else {};
            if orphans == {} then r.devices == old(r.devices) && r.References() == old(r.References())
            else CardOutcome(Adopted(old(r.devices), card, orphans), old(r.References()), r.devices, r.References(),
                             card, old(r.DescriptionOf(card)), old(r.cards))
    ensures r.cards == Bound(old(r.cards), card, bound)
    ensures r.routeSupport == BoundSupport(old(r.cards), old(r.routeSupport), card, bound)
    ensures r.cardDescriptions == if description != "" then old(r.cardDescriptions)[card := description]
                                  else old(r.cardDescriptions)
  {
    hide IndexAgrees, StreamsLive, CardOutcome, Orphans, Adopted, EntryAgrees;
    if named {
      var matchedAny := AdoptDevices(r, card, names);
      AdoptedAgrees(old(r.devices), card, Orphans(old(r.devices), names), r.pathsByNode, r.streams);
      if matchedAny {
        r.RefreshLogicalDevicesForRouteDevice(card);
        RetargetedAgrees(old(r.streams), r.streams, r.streamPathsByNode);
      } else {
        NothingAdopted(old(r.devices), card);
      }
    }
    if description != "" { r.cardDescriptions := r.cardDescriptions[card := description]; }
    BindDeviceProxy(r, card, bound);
  }

  lemma NothingAdopted(devices: map<string, Device>, card: nat)
    ensures Adopted(devices, card, {}) == devices
  {
  }

  lemma AdoptedAgrees(devices: map<string, Device>, card: nat, orphans: set<string>, index: map<nat, seq<string>>,
                      streams: map<string, Stream>)
    requires IndexAgrees(devices, index) && StreamsLive(devices, streams)
    ensures var adopted := Adopted(devices, card, orphans);
            adopted.Keys == devices.Keys && (forall p <- devices :: adopted[p].nodeId == devices[p].nodeId) &&
            IndexAgrees(adopted, index) && StreamsLive(adopted, streams)
  {
    hide IndexAgrees;
    SameNodesAgree(devices, Adopted(devices, card, orphans), index);
  }

  // ---------- nodes ----------

  /** The device a sink or source node gets on its own. */
  function NodeDevice(id: nat, card: nat, profileDevice: int, nodeName: string, serial: string, name: string,
                      kind: string, direction: string): Device
  {
    Device(id, card, profileDevice, -1, true, false, nodeName, serial, ToString(id), name, kind, direction, true)
  }

  lemma NodeDeviceMeans(id: nat, card: nat, profileDevice: int, nodeName: string, serial: string, name: string,
                        kind: string, direction: string)
    ensures var d := NodeDevice(id, card, profileDevice, nodeName, serial, name, kind, direction);
            d.nodeId == id && d.cardId == card && d.profileDevice == profileDevice && d.nodeName == nodeName &&
            d.serial == serial && d.name == name && d.kind == kind && d.direction == direction && d.available &&
            d.routeActive && !d.isRoute && d.routeIndex == -1 && ChildPath(d.id) == NodePath(id)
  {
  }

  method AddDeviceNode(r: Registry, id: U32, card: U32, profileDevice: int, nodeName: string, serial: string,
                       name: string, kind: string, direction: string, bound: bool)
    requires Healthy(r)
    modifies r`devices, r`pathsByNode, r`streams, r`activeInput, r`activeOutput, r`pendingInput, r`pendingOutput,
        r`cards,
             r`routeSupport
    ensures Healthy(r)
    ensures var added := old(r.devices)[NodePath(id) := NodeDevice(id, card, profileDevice, nodeName, serial, name,
                                                                   kind, direction)];
            if card == INVALID_ID then r.devices == added && r.References() == old(r.References())
            else CardOutcome(added, old(r.References()), r.devices, r.References(), card, old(r.DescriptionOf(card)),
                             r.cards)
    ensures r.cards == (if card == INVALID_ID then old(r.cards) else Bound(old(r.cards), card, bound))
    ensures r.routeSupport ==
            if card == INVALID_ID then old(r.routeSupport)
            else BoundSupport(old(r.cards), old(r.routeSupport), card, bound)
  {
    hide IndexAgrees, StreamsLive, EntryAgrees, CardOutcome, NodePath;
    NodePathIsNotRoot(id);
    r.PutDevice(NodePath(id), NodeDevice(id, card, profileDevice, nodeName, serial, name, kind, direction));
    if card != INVALID_ID {
      BindAndRefresh(r, card, bound);
    }
  }

  method BindAndRefresh(r: Registry, card: U32, bound: bool)
    requires Healthy(r)
    modifies r`devices, r`pathsByNode, r`streams, r`activeInput, r`activeOutput, r`pendingInput, r`pendingOutput,
        r`cards,
             r`routeSupport
    ensures Healthy(r) && CardOutcome(old(r.devices), old(r.References()), r.devices, r.References(), card,
                                      old(r.DescriptionOf(card)), r.cards)
    ensures r.cards == Bound(old(r.cards), card, bound)
    ensures r.routeSupport == BoundSupport(old(r.cards), old(r.routeSupport), card, bound)
  {
    hide IndexAgrees, StreamsLive, EntryAgrees, CardOutcome;
    BindDeviceProxy(r, card, bound);
    r.RefreshLogicalDevicesForRouteDevice(card);
    RetargetedAgrees(old(r.streams), r.streams, r.streamPathsByNode);
  }

  method AddStreamNode(r: Registry, id: U32, direction: string, target: string)
    requires Healthy(r)
    modifies r`streams, r`streamPathsByNode
    ensures Healthy(r)
    ensures if StreamPath(id) in old(r.streams) then r.streams == old(r.streams)
            else exists d :: (IsTargetResult(r.devices, target, d) &&
                              r.streams == old(r.streams)[StreamPath(id) := Stream(id, direction, d)])
    ensures r.streamPathsByNode ==
            if StreamPath(id) in old(r.streams) then old(r.streamPathsByNode)
            else old(r.streamPathsByNode)[id := StreamPath(id)]
  {
    hide IndexAgrees, EntryAgrees, StreamsLive, StreamIndexAgrees, IsTargetResult, StreamPath, Keyed;
    var path := StreamPath(id);
    if path in r.streams { return; }
    var device := r.FindDevicePathByTargetObject(target);
    StreamAdded(r.devices, r.streams, r.streamPathsByNode, id, direction, target, device);
    r.streamPathsByNode := r.streamPathsByNode[id := path];
    r.streams := r.streams[path := Stream(id, direction, device)];
  }

  lemma TargetLive(devices: map<string, Device>, target: string, device: string)
    requires IsTargetResult(devices, target, device)
    ensures Live(devices, device)
  {
  }

  lemma StreamAdded(devices: map<string, Device>, streams: map<string, Stream>, index: map<nat, string>, id: nat,
                    direction: string, target: string, device: string)
    requires StreamsLive(devices, streams) && StreamIndexAgrees(streams, index)
    requires IsTargetResult(devices, target, device) && StreamPath(id) !in streams
    ensures var after := streams[StreamPath(id) := Stream(id, direction, device)];
            StreamsLive(devices, after) && StreamIndexAgrees(after, index[id := StreamPath(id)])
  {
    hide StreamPath, IsTargetResult;
    TargetLive(devices, target, device);
  }

  method RemoveStreamNode(r: Registry, id: nat)
    requires Healthy(r)
    modifies r`streams, r`streamPathsByNode
    ensures Healthy(r) && r.streams == old(r.streams) - {StreamPath(id)}
    ensures r.streamPathsByNode == old(r.streamPathsByNode) - {id}
  {
    hide IndexAgrees, EntryAgrees, StreamsLive, StreamIndexAgrees, StreamPath, Keyed;
    StreamRemoved(r.devices, r.streams, r.streamPathsByNode, id);
    if id !in r.streamPathsByNode { return; }
    var path := r.streamPathsByNode[id];
    r.streamPathsByNode := r.streamPathsByNode - {id};
    if path in r.streams {
      r.streams := r.streams - {path};
    }
  }

  lemma StreamRemoved(devices: map<string, Device>, streams: map<string, Stream>, index: map<nat, string>, id: nat)
    requires StreamsLive(devices, streams) && StreamIndexAgrees(streams, index)
    ensures if id in index then index[id] == StreamPath(id) && StreamPath(id) in streams
            else streams - {StreamPath(id)} == streams && index - {id} == index
    ensures StreamsLive(devices, streams - {StreamPath(id)}) &&
        StreamIndexAgrees(streams - {StreamPath(id)}, index - {id})
  {
    hide StreamPath;
    StreamPathsApart(streams, index, id);
  }

  lemma StreamPathsApart(streams: map<string, Stream>, index: map<nat, string>, id: nat)
    requires StreamIndexAgrees(streams, index)
    ensures id !in index ==> StreamPath(id) !in streams
    ensures forall n <- index :: index[n] == StreamPath(id) ==> n == id
  {
    forall n <- index | index[n] == StreamPath(id) ensures n == id {
      var k := |BASE + "/Streams/"|;
      assert StreamPath(n)[k..] == ToString(n) && StreamPath(id)[k..] == ToString(id);
      ToStringInjective(n, id);
    }
  }

  /** Without a node: its stream is gone, and what referred to one of its devices refers to nothing. */
  function Forgotten(devices: map<string, Device>, refs: Refs, id: nat): Refs {
    var rest := WithoutNode(devices, refs, id);
    rest.(streams := rest.streams - {StreamPath(id)})
  }

  lemma OnlyTurnedAway(devices: map<string, Device>, refs: Refs, id: nat)
    ensures OnlyRetargeted(refs.streams, WithoutNode(devices, refs, id).streams)
  {
  }

  lemma NoneToTurnAway(devices: map<string, Device>, refs: Refs, id: nat)
    requires (map p <- devices | devices[p].nodeId != id :: devices[p]) == devices
    ensures WithoutNode(devices, refs, id) == refs
  {
    forall p <- devices ensures devices[p].nodeId != id {
      assert p in map q <- devices | devices[q].nodeId != id :: devices[q];
    }
  }

  /** Drops the node's devices and its stream, if it has any. */
  method ForgetNode(r: Registry, id: U32)
    requires Healthy(r)
    modifies r`devices, r`pathsByNode, r`streams, r`streamPathsByNode, r`activeInput, r`activeOutput
    ensures Healthy(r)
    ensures r.devices == map p <- old(r.devices) | old(r.devices)[p].nodeId != id :: old(r.devices)[p]
    ensures r.References() == Forgotten(old(r.devices), old(r.References()), id)
    ensures r.streamPathsByNode == old(r.streamPathsByNode) - {id}
  {
    hide IndexAgrees, StreamsLive, EntryAgrees, StreamPath, StreamIndexAgrees, Keyed, WithoutNode;
    EntryOf(r.devices, r.pathsByNode, id);
    if id in r.pathsByNode {
      r.RemoveDeviceNode(id);
      OnlyTurnedAway(old(r.devices), old(r.References()), id);
      RetargetedAgrees(old(r.streams), r.streams, r.streamPathsByNode);
    } else {
      NoneOnNode(r.devices, r.pathsByNode, id);
      NoneToTurnAway(r.devices, r.References(), id);
    }
    StreamRemoved(r.devices, r.streams, r.streamPathsByNode, id);
    if id in r.streamPathsByNode { RemoveStreamNode(r, id); }
  }

  method HandleRegistryGlobalRemove(r: Registry, id: U32)
    requires Healthy(r)
    modifies r`devices, r`pathsByNode, r`streams, r`streamPathsByNode, r`activeInput, r`activeOutput, r`cards,
             r`routeSupport, r`cardDescriptions, r`metadata
    ensures Healthy(r)
    ensures r.devices == map p <- old(r.devices) | old(r.devices)[p].nodeId != id :: old(r.devices)[p]
    ensures r.References() == Forgotten(old(r.devices), old(r.References()), id)
    ensures r.cards == old(r.cards) - {id} && r.cardDescriptions == old(r.cardDescriptions) - {id}
    ensures r.routeSupport == old(r.routeSupport) - {id} && r.streamPathsByNode == old(r.streamPathsByNode) - {id}
    ensures r.metadata == if old(r.metadata) == Some(id) then None else old(r.metadata)
  {
    hide Healthy, IndexAgrees, StreamsLive, EntryAgrees, StreamPath, StreamIndexAgrees, Keyed, Forgotten;
    ForgetNode(r, id);
    ForgetGlobal(r, id);
  }

  /** What is not about nodes: the metadata object and the card of this id. */
  method ForgetGlobal(r: Registry, id: U32)
    requires Healthy(r)
    modifies r`cards, r`routeSupport, r`cardDescriptions, r`metadata
    ensures Healthy(r)
    ensures r.cards == old(r.cards) - {id} && r.cardDescriptions == old(r.cardDescriptions) - {id}
    ensures r.routeSupport == old(r.routeSupport) - {id}
    ensures r.metadata == if old(r.metadata) == Some(id) then None else old(r.metadata)
  {
    hide IndexAgrees, StreamsLive, StreamIndexAgrees, Keyed;
    if r.metadata == Some(id) { r.metadata := None; }
    r.cards := r.cards - {id};
    r.routeSupport := r.routeSupport - {id};
    r.cardDescriptions := r.cardDescriptions - {id};
  }

  lemma NoneOnNode(devices: map<string, Device>, index: map<nat, seq<string>>, id: nat)
    requires EntryAgrees(devices, index, id) && id !in index
    ensures (map p <- devices | devices[p].nodeId != id :: devices[p]) == devices
  {
  }

  /** After its node is gone no device, stream or active device mentions it. */
  lemma RemovedNodeForgotten(r: Registry, id: nat, devices: map<string, Device>)
    requires Healthy(r) && r.devices == map p <- devices | devices[p].nodeId != id :: devices[p]
    ensures id !in r.pathsByNode
    ensures forall s <- r.streams :: (r.streams[s].device == ROOT ||
      (r.streams[s].device in devices && devices[r.streams[s].device].nodeId != id))
    ensures forall a <- {r.activeInput, r.activeOutput} :: a == ROOT || (a in devices && devices[a].nodeId != id)
  {
    assert EntryAgrees(r.devices, r.pathsByNode, id);
    if id in r.pathsByNode { EntryPresent(r.devices, r.pathsByNode, id); }
  }
}
