/** The audio registry: devices, streams, the per-node index of device paths and the active devices, updated by one
    event at a time. The order in which an unordered table is walked is left open. */
module AudioRegistry {
  import opened Common
  import opened Numerals
  import opened AudioModel
  import opened AudioRefresh
  import opened AudioReferences

  // ---------- what a refresh remembers of a card's nodes ----------

  datatype TextField = NodeNameField | SerialField | DirectionField | KindField | NameField

  function DeviceText(d: Device, f: TextField): string {
    match f
    case NodeNameField => d.nodeName
    case SerialField => d.serial
    case DirectionField => d.direction
    case KindField => d.kind
    case NameField => d.name
  }

  function NodeText(n: Node, f: TextField): string {
    match f
    case NodeNameField => n.nodeName
    case SerialField => n.serial
    case DirectionField => n.direction
    case KindField => n.kind
    case NameField => n.fallbackName
  }

  /** Those of the given devices that are of a node on a card. */
  function OnCard(devices: map<string, Device>, seen: set<string>, card: nat, node: nat): set<string> {
    set p <- seen | p in devices && devices[p].cardId == card && devices[p].nodeId == node
  }

  /** The text is that of one of the devices, and empty only if it is on all of them. */
  ghost predicate TextKept(devices: map<string, Device>, paths: set<string>, f: TextField, text: string)
    requires paths <= devices.Keys
  {
    (exists p <- paths :: DeviceText(devices[p], f) == text) &&
    (text == "" ==> forall p <- paths :: DeviceText(devices[p], f) == "")
  }

  /** The profile device is that of one of the devices, and negative only if it is on all of them. */
  ghost predicate ProfileKept(devices: map<string, Device>, paths: set<string>, profileDevice: int)
    requires paths <= devices.Keys
  {
    (exists p <- paths :: devices[p].profileDevice == profileDevice) &&
    (profileDevice < 0 ==> forall p <- paths :: devices[p].profileDevice < 0)
  }

  ghost predicate Remembers(devices: map<string, Device>, seen: set<string>, card: nat, node: Node) {
    var paths := OnCard(devices, seen, card, node.nodeId);
    ProfileKept(devices, paths, node.profileDevice) &&
        forall f: TextField :: TextKept(devices, paths, f, NodeText(node, f))
  }

  ghost predicate SnapshotOf(devices: map<string, Device>, seen: set<string>, card: nat, nodes: map<nat, Node>) {
    (forall n :: n in nodes <==> OnCard(devices, seen, card, n) != {}) &&
    forall n <- nodes :: nodes[n].nodeId == n && Remembers(devices, seen, card, nodes[n])
  }

  /** Exactly the nodes of a card, and of each a value of every field that one of its devices on the card has, a
      non-empty or non-negative one if there is one. */
  ghost predicate IsSnapshot(devices: map<string, Device>, card: nat, nodes: map<nat, Node>) {
    SnapshotOf(devices, devices.Keys, card, nodes)
  }

  /** A node after one more of its devices was met. */
  function Merged(node: Node, d: Device): Node {
    Node(d.nodeId, OrElse(node.nodeName, d.nodeName), OrElse(node.serial, d.serial),
         OrElse(node.direction, d.direction), OrElse(node.kind, d.kind), OrElse(node.fallbackName, d.name),
         if node.profileDevice < 0 then d.profileDevice else node.profileDevice)
  }

  lemma NothingSeen(devices: map<string, Device>, card: nat)
    ensures SnapshotOf(devices, {}, card, map[])
  {
  }

  lemma OneMoreOnCard(devices: map<string, Device>, seen: set<string>, path: string, card: nat, node: nat)
    requires path in devices
    ensures OnCard(devices, seen + {path}, card, node) ==
            OnCard(devices, seen, card, node) + if devices[path].cardId == card &&
                devices[path].nodeId == node then {path} else {}
  {
  }

  lemma TextMerged(devices: map<string, Device>, paths: set<string>, path: string, f: TextField, text: string)
    requires paths <= devices.Keys && path in devices
    requires if paths == {} then text == "" else TextKept(devices, paths, f, text)
    ensures TextKept(devices, paths + {path}, f, OrElse(text, DeviceText(devices[path], f)))
  {
    var kept := OrElse(text, DeviceText(devices[path], f));
    if text != "" {
      var p :| p in paths && DeviceText(devices[p], f) == text;
      assert p in paths + {path};
    } else {
      assert path in paths + {path} && kept == DeviceText(devices[path], f);
    }
  }

  lemma ProfileMerged(devices: map<string, Device>, paths: set<string>, path: string, profileDevice: int)
    requires paths <= devices.Keys && path in devices
    requires if paths == {} then profileDevice < 0 else ProfileKept(devices, paths, profileDevice)
    ensures ProfileKept(devices, paths + {path}, if profileDevice < 0 then devices[path].profileDevice
                        else profileDevice)
  {
    if profileDevice >= 0 {
      var p :| p in paths && devices[p].profileDevice == profileDevice;
      assert p in paths + {path};
    } else {
      assert path in paths + {path};
    }
  }

  /** Meeting one more device of the card keeps the snapshot. */
  lemma SnapshotStep(devices: map<string, Device>, seen: set<string>, path: string, card: nat, nodes: map<nat, Node>)
    requires path in devices && devices[path].cardId == card && SnapshotOf(devices, seen, card, nodes)
    ensures var d := devices[path];
            var node := if d.nodeId in nodes then nodes[d.nodeId] else Node(d.nodeId, "", "", "", "", "", -1);
            SnapshotOf(devices, seen + {path}, card, nodes[d.nodeId := Merged(node, d)])
  {
    hide OnCard, TextKept, ProfileKept, OrElse;
    var d := devices[path];
    var node := if d.nodeId in nodes then nodes[d.nodeId] else Node(d.nodeId, "", "", "", "", "", -1);
    var after := nodes[d.nodeId := Merged(node, d)];
    forall n ensures OnCard(devices, seen + {path}, card, n) ==
                     OnCard(devices, seen, card, n) + if d.nodeId == n then {path} else {}
    {
      OneMoreOnCard(devices, seen, path, card, n);
    }
    var paths := OnCard(devices, seen, card, d.nodeId);
    OnCardInTable(devices, seen, card, d.nodeId);
    forall f: TextField
      ensures TextKept(devices, paths + {path}, f, NodeText(after[d.nodeId], f))
    {
      TextMerged(devices, paths, path, f, NodeText(node, f));
    }
    ProfileMerged(devices, paths, path, node.profileDevice);
    forall n <- after | n != d.nodeId ensures Remembers(devices, seen + {path}, card, after[n]) {
      assert Remembers(devices, seen, card, nodes[n]);
      assert OnCard(devices, seen, card, n) + {} == OnCard(devices, seen, card, n);
    }
    forall n ensures n in after <==> OnCard(devices, seen + {path}, card, n) != {} {
      if n == d.nodeId { assert path in paths + {path}; }
    }
  }

  lemma OnCardInTable(devices: map<string, Device>, seen: set<string>, card: nat, node: nat)
    ensures OnCard(devices, seen, card, node) <= devices.Keys
  {
  }

  lemma SnapshotSkips(devices: map<string, Device>, seen: set<string>, path: string, card: nat, nodes: map<nat, Node>)
    requires path in devices && devices[path].cardId != card && SnapshotOf(devices, seen, card, nodes)
    ensures SnapshotOf(devices, seen + {path}, card, nodes)
  {
    hide OnCard, TextKept, ProfileKept;
    forall n ensures OnCard(devices, seen + {path}, card, n) == OnCard(devices, seen, card, n) {
      OneMoreOnCard(devices, seen, path, card, n);
    }
    forall n <- nodes ensures Remembers(devices, seen + {path}, card, nodes[n]) {
      assert Remembers(devices, seen, card, nodes[n]);
    }
  }

  /** A node whose devices on the card all have one direction is among the nodes of that direction, in every snapshot.
      */
  lemma NodeHasDirection(devices: map<string, Device>, card: nat, nodes: map<nat, Node>, node: nat, direction: string)
    requires IsSnapshot(devices, card, nodes) && OnCard(devices, devices.Keys, card, node) != {}
    requires forall p <- devices :: devices[p].cardId == card && devices[p].nodeId == node ==>
      devices[p].direction == direction
    requires forall n <- nodes :: nodes[n].nodeId == n < 0x1_0000_0000
    ensures node in nodes && nodes[node].direction == direction && nodes[node] in DirectionNodes(nodes, direction)
  {
    assert Remembers(devices, devices.Keys, card, nodes[node]);
    assert TextKept(devices, OnCard(devices, devices.Keys, card, node), DirectionField,
                    NodeText(nodes[node], DirectionField));
    NodesInOrder(nodes, direction);
  }

  /** A snapshot has the card's nodes and no other. */
  lemma SnapshotNodesInRange(devices: map<string, Device>, card: nat, nodes: map<nat, Node>)
    requires IsSnapshot(devices, card, nodes) && forall p <- devices :: devices[p].nodeId < 0x1_0000_0000
    ensures forall n <- nodes :: nodes[n].nodeId == n < 0x1_0000_0000
    ensures nodes.Keys == set p <- devices | devices[p].cardId == card :: devices[p].nodeId
  {
    forall n <- nodes
      ensures n < 0x1_0000_0000 && exists p <- devices :: devices[p].cardId == card && devices[p].nodeId == n
    {
      assert OnCard(devices, devices.Keys, card, n) != {};
      var p :| p in OnCard(devices, devices.Keys, card, n);
      assert p in devices;
    }
    forall p <- devices | devices[p].cardId == card ensures devices[p].nodeId in nodes {
      assert p in OnCard(devices, devices.Keys, card, devices[p].nodeId);
    }
  }

  function NodeIdsOf(nodes: map<nat, Node>, direction: string): set<nat> {
    set n <- nodes | nodes[n].direction == direction
  }

  /** The nodes of a direction in id order. */
  ghost function DirectionNodes(nodes: map<nat, Node>, direction: string): seq<Node> {
    AscendingFacts(NodeIdsOf(nodes, direction));
    var ids := Ascending(NodeIdsOf(nodes, direction));
    seq(|ids|, i requires 0 <= i < |ids| => NodeOf(nodes, direction, ids[i]))
  }

  function NodeOf(nodes: map<nat, Node>, direction: string, id: nat): Node
    requires id in NodeIdsOf(nodes, direction)
  {
    nodes[id]
  }

  lemma RoutesInOrder(routes: map<nat, Route>, direction: nat)
    requires Keyed(routes)
    ensures SmallIndexes(DirectionRoutes(routes, direction)) && DistinctIndexes(DirectionRoutes(routes, direction))
    ensures forall r :: r in DirectionRoutes(routes, direction) <==>
                        exists k <- routes :: routes[k] == r && r.direction == direction
  {
    var indexes := RouteIndexes(routes, direction);
    var rs := DirectionRoutes(routes, direction);
    AscendingFacts(indexes);
    forall i | 0 <= i < |rs| ensures rs[i].index == Ascending(indexes)[i] && rs[i].index < 0x8000_0000 &&
        rs[i].direction == direction {
      assert Ascending(indexes)[i] in indexes;
    }
    forall k <- routes | routes[k].direction == direction ensures routes[k] in rs {
      assert routes[k].index in Ascending(indexes);
      var i :| 0 <= i < |indexes| && Ascending(indexes)[i] == routes[k].index;
      assert rs[i] == routes[k];
    }
    forall r <- rs ensures exists k <- routes :: routes[k] == r && r.direction == direction {
      var i :| 0 <= i < |rs| && rs[i] == r;
      assert Ascending(indexes)[i] in indexes;
      var k := RouteKey(direction, Ascending(indexes)[i]);
      assert k in routes && routes[k] == r;
    }
  }

  lemma NodesInOrder(nodes: map<nat, Node>, direction: string)
    requires forall n <- nodes :: nodes[n].nodeId == n < 0x1_0000_0000
    ensures NodesInRange(DirectionNodes(nodes, direction))
    ensures forall n :: n in DirectionNodes(nodes, direction) <==>
                        n.nodeId in nodes && nodes[n.nodeId] == n && n.direction == direction
  {
    var ids := NodeIdsOf(nodes, direction);
    var ns := DirectionNodes(nodes, direction);
    AscendingFacts(ids);
    forall i | 0 <= i < |ns|
      ensures ns[i].nodeId == Ascending(ids)[i] && ns[i].nodeId in nodes && nodes[ns[i].nodeId] == ns[i] &&
          ns[i].direction == direction
    {
      assert Ascending(ids)[i] in ids;
    }
    forall n: Node | n.nodeId in nodes && nodes[n.nodeId] == n && n.direction == direction ensures n in ns {
      assert n.nodeId in Ascending(ids);
      var i :| 0 <= i < |ids| && Ascending(ids)[i] == n.nodeId;
      assert ns[i] == n;
    }
  }

  lemma DirectionsApart(nodes: map<nat, Node>)
    requires forall n <- nodes :: nodes[n].nodeId == n < 0x1_0000_0000
    ensures NodesInRange(DirectionNodes(nodes, "output") + DirectionNodes(nodes, "input"))
  {
    NodesInOrder(nodes, "output");
    NodesInOrder(nodes, "input");
    var a, b := DirectionNodes(nodes, "output"), DirectionNodes(nodes, "input");
    forall x <- a, y <- b ensures x.nodeId != y.nodeId {
    }
  }

  /** A listed node has a device. */
  lemma EntryPresent(devices: map<string, Device>, index: map<nat, seq<string>>, node: nat)
    requires EntryAgrees(devices, index, node) && node in index
    ensures exists p <- devices :: devices[p].nodeId == node
  {
    assert index[node][0] in index[node];
  }

  lemma ListedFresh(before: map<string, Device>, devices: map<string, Device>, index: map<nat, seq<string>>, node: nat,
                    path: string)
    requires path in devices && devices[path].nodeId == node && before - {path} == devices - {path}
    requires IndexAgrees(before - {path}, index)
    ensures var paths := if node in index then index[node] else [];
            path !in paths && IndexAgrees(devices, index[node := paths + [path]])
  {
    var paths := if node in index then index[node] else [];
    var after := index[node := paths + [path]];
    assert EntryAgrees(before - {path}, index, node);
    forall n: nat ensures EntryAgrees(devices, after, n) {
      assert EntryAgrees(before - {path}, index, n);
      forall p ensures (n in after && p in after[n]) <==> (p in devices && devices[p].nodeId == n) {
        if p != path {
          assert p in devices <==> p in before - {path};
          assert p in devices ==> devices[p] == (devices - {path})[p] == (before - {path})[p];
        }
      }
    }
  }

  lemma ListedAlready(before: map<string, Device>, devices: map<string, Device>, index: map<nat, seq<string>>,
                      node: nat, path: string)
    requires path in devices && devices[path].nodeId == node && before - {path} == devices - {path}
    requires path in before && before[path].nodeId == node && IndexAgrees(before, index)
    ensures node in index && path in index[node] && IndexAgrees(devices, index[node := index[node]])
  {
    assert EntryAgrees(before, index, node);
    assert index[node := index[node]] == index;
    forall n: nat ensures EntryAgrees(devices, index, n) {
      assert EntryAgrees(before, index, n);
      forall p ensures (n in index && p in index[n]) <==> (p in devices && devices[p].nodeId == n) {
        if p != path {
          assert p in devices <==> p in before - {path};
          assert p in devices ==> devices[p] == (devices - {path})[p] == (before - {path})[p];
        }
      }
    }
  }

  /** What adding a device at a path stores: everything given, an active route only when it is not a route device, and
      the node name and serial of the node's own device, else those already there. */
  function AddedDevice(devices: map<string, Device>, path: string, nodeId: nat, cardId: nat, profileDevice: int,
                       routeIndex: int, leaf: string, name: string, kind: string, direction: string, available: bool)
    : Device
  {
    var known := if NodePath(nodeId) in devices then NodePath(nodeId) else path;
    var nodeName := if known in devices then devices[known].nodeName else "";
    var serial := if known in devices then devices[known].serial else "";
    Device(nodeId, cardId, profileDevice, routeIndex, routeIndex < 0, routeIndex >= 0, nodeName, serial, leaf, name,
           kind, direction, available)
  }

  /** A device added at its path shows everything given, takes node name and serial from the node's own device if there
      is one, and keeps its own otherwise. */
  lemma AddedMeans(devices: map<string, Device>, path: string, nodeId: nat, cardId: nat, profileDevice: int,
                   routeIndex: int, leaf: string, name: string, kind: string, direction: string, available: bool)
    ensures var d := AddedDevice(devices, path, nodeId, cardId, profileDevice, routeIndex, leaf, name, kind, direction,
                                 available);
            d.nodeId == nodeId && d.cardId == cardId && d.profileDevice == profileDevice &&
            d.routeIndex == routeIndex && d.id == leaf && d.name == name && d.kind == kind &&
            d.direction == direction && d.available == available &&
            (d.isRoute <==> routeIndex >= 0) && (d.routeActive <==> !d.isRoute) &&
            (NodePath(nodeId) in devices ==>
               d.nodeName == devices[NodePath(nodeId)].nodeName && d.serial == devices[NodePath(nodeId)].serial) &&
            (NodePath(nodeId) !in devices && path in devices ==>
               d.nodeName == devices[path].nodeName && d.serial == devices[path].serial) &&
            (NodePath(nodeId) !in devices && path !in devices ==> d.nodeName == "" && d.serial == "")
  {
  }

  class Registry {
    var devices: map<string, Device>
    var streams: map<string, Stream>
    var pathsByNode: map<nat, seq<string>>
    var streamPathsByNode: map<nat, string>
    var activeInput: string
    var activeOutput: string
    var pendingInput: string
    var pendingOutput: string
    var cards: map<nat, map<nat, Route>>
    var cardDescriptions: map<nat, string>
    /** For cards that have said so: whether they support route parameters. */
    var routeSupport: map<nat, bool>
    var metadata: Option<nat>

    /** The index equals a scan of the table, no live reference dangles, and route tables are well keyed. */
    ghost predicate Valid()
      reads this
    {
      ROOT !in devices && IndexAgrees(devices, pathsByNode) &&
      Live(devices, activeInput) && Live(devices, activeOutput) && StreamsLive(devices, streams) &&
      (forall p <- devices :: devices[p].nodeId < 0x1_0000_0000) &&
      (forall c <- cards :: Keyed(cards[c]) && c < 0x1_0000_0000)
    }

    constructor ()
      ensures Valid() && devices == map[] && streams == map[] && streamPathsByNode == map[]
    {
      devices, streams, pathsByNode, streamPathsByNode := map[], map[], map[], map[];
      activeInput, activeOutput, pendingInput, pendingOutput := ROOT, ROOT, ROOT, ROOT;
      cards, cardDescriptions, routeSupport, metadata := map[], map[], map[], None;
    }

    // ---------- lookups ----------

    method FindDevicePathsByNodeId(id: nat) returns (paths: seq<string>)
      ensures paths == if id in pathsByNode then pathsByNode[id] else []
    {
      paths := if id in pathsByNode then pathsByNode[id] else [];
    }

    /** The preferred device of a node. */
    method FindDevicePathByNodeId(id: nat) returns (r: string)
      requires ROOT !in devices && EntryAgrees(devices, pathsByNode, id)
      ensures IsPreferred(devices, id, r)
    {
      var paths := FindDevicePathsByNodeId(id);
      if paths == [] {
        return ROOT;
      }
      assert paths[0] in devices;
      var activePath, availablePath := ROOT, ROOT;
      var i := 0;
      while i < |paths|
        invariant 0 <= i <= |paths|
        invariant forall j | 0 <= j < i :: Rank(devices[paths[j]]) > 0
        invariant if activePath == ROOT then forall j | 0 <= j < i :: Rank(devices[paths[j]]) != 1
                  else activePath in paths && Rank(devices[activePath]) == 1
        invariant if availablePath == ROOT then forall j | 0 <= j < i :: Rank(devices[paths[j]]) != 2
                  else availablePath in paths && Rank(devices[availablePath]) == 2
      {
        var d := devices[paths[i]];
        if d.routeActive && d.available { return paths[i]; }
        if d.routeActive && activePath == ROOT { activePath := paths[i]; }
        if d.available && availablePath == ROOT { availablePath := paths[i]; }
        i := i + 1;
      }
      assert forall p <- devices :: devices[p].nodeId == id ==> p in paths;
      if activePath != ROOT { return activePath; }
      if availablePath != ROOT { return availablePath; }
      r := paths[0];
    }

    /** The best match for a target: lowest rank, then least path. */
    method BestMatch(target: string) returns (r: string)
      requires ROOT !in devices && target != ""
      ensures if forall p <- devices :: !Matches(devices[p], target) then r == ROOT
              else IsBestMatch(devices, target, r)
    {
      r := ROOT;
      var left := devices.Keys;
      while left != {}
        invariant left <= devices.Keys
        invariant if r == ROOT then forall p <- devices :: p in left || !Matches(devices[p], target)
                  else r in devices && Matches(devices[r], target) &&
                       forall p <- devices :: p !in left && Matches(devices[p], target) ==>
                         Rank(devices[r]) < Rank(devices[p]) || (Rank(devices[r]) == Rank(devices[p]) && !LexLess(p, r))
        decreases left
      {
        var path :| path in left;
        left := left - {path};
        if Matches(devices[path], target) {
          var rank := Rank(devices[path]);
          if r == ROOT || rank < Rank(devices[r]) || (rank == Rank(devices[r]) && LexLess(path, r)) {
            LexTotal(path, path);
            if r != ROOT && rank == Rank(devices[r]) {
              forall p <- devices | LexLess(p, path) ensures LexLess(p, r) { LexTransitive(p, path, r); }
            }
            r := path;
          }
        }
      }
    }

    method FindDevicePathByTargetObject(target: string) returns (r: string)
      requires Valid()
      ensures IsTargetResult(devices, target, r)
    {
      hide Matches, LexLess, StreamsLive, Keyed;
      if target == "" {
        NoTarget(devices);
        return ROOT;
      }
      var best := BestMatch(target);
      if best == ROOT { return ROOT; }
      var node := devices[best].nodeId;
      EntryOf(devices, pathsByNode, node);
      if node != INVALID_ID {
        var preferred := FindDevicePathByNodeId(node);
        assert StandsFor(devices, best, preferred);
        if preferred != ROOT { return preferred; }
      }
      r := best;
    }

    // ---------- adding and removing one device ----------

    /** Adds or overwrites a device and keeps the index in agreement. */
    method AddLogicalDevice(path: string, nodeId: nat, cardId: nat, profileDevice: int, routeIndex: int, leaf: string,
                            name: string, kind: string, direction: string, available: bool)
      requires Valid() && path != ROOT && nodeId < 0x1_0000_0000
      modifies this`devices, this`pathsByNode
      ensures Valid()
      ensures devices == old(devices)[path := AddedDevice(old(devices), path, nodeId, cardId, profileDevice, routeIndex,
                                                          leaf, name, kind, direction, available)]
    {
      hide IndexAgrees, EntryAgrees, NodePath, StreamsLive, Keyed, AddedDevice;
      var created := path !in devices;
      var previousNodeId := if created then INVALID_ID else devices[path].nodeId;
      var device := FillIn(path, nodeId, cardId, profileDevice, routeIndex, leaf, name, kind, direction, available);
      ghost var before := devices;
      devices := devices[path := device];
      MoreLive(before, streams, path, device);
      assert before - {path} == devices - {path};
      if created { assert before - {path} == before; }
      if !created && previousNodeId != nodeId {
        UnlistPath(before, previousNodeId, path);
      }
      ListPath(before, nodeId, path);
    }

    /** The fields of a device as they are set one after the other. */
    method FillIn(path: string, nodeId: nat, cardId: nat, profileDevice: int, routeIndex: int, leaf: string,
                  name: string, kind: string, direction: string, available: bool) returns (device: Device)
      ensures device == AddedDevice(devices, path, nodeId, cardId, profileDevice, routeIndex, leaf, name, kind,
                                    direction, available)
      ensures device.nodeId == nodeId
    {
      hide NodePath;
      device := if path !in devices
                  then Device(INVALID_ID, INVALID_ID, -1, -1, false, false, "", "", "", "", "", "", false)
                else devices[path];
      device := device.(nodeId := nodeId, cardId := cardId, profileDevice := profileDevice, routeIndex := routeIndex,
                        routeActive := routeIndex < 0, isRoute := routeIndex >= 0);
      var existing := NodePath(nodeId);
      if existing in devices && existing != path {
        device := device.(nodeName := devices[existing].nodeName, serial := devices[existing].serial);
      }
      device := device.(id := leaf, name := name, kind := kind, direction := direction, available := available);
    }

    /** Takes a path off a node's list and drops the list when it was the last. */
    method UnlistPath(ghost before: map<string, Device>, node: nat, path: string)
      requires path in before && before[path].nodeId == node && IndexAgrees(before, pathsByNode)
      modifies this`pathsByNode
      ensures IndexAgrees(before - {path}, pathsByNode)
    {
      assert EntryAgrees(before, pathsByNode, node) && path in pathsByNode[node];
      var kept := Without(pathsByNode[node], path);
      ghost var index := pathsByNode;
      if kept == [] {
        pathsByNode := pathsByNode - {node};
      } else {
        pathsByNode := pathsByNode[node := kept];
      }
      forall n: nat ensures EntryAgrees(before - {path}, pathsByNode, n) {
        assert EntryAgrees(before, index, n);
        if n == node {
          assert forall p :: p in kept <==> p in index[node] && p != path;
        }
      }
    }

    /** Puts a path on a node's list unless it is there. */
    method ListPath(ghost before: map<string, Device>, node: nat, path: string)
      requires path in devices && devices[path].nodeId == node && before - {path} == devices - {path}
      requires IndexAgrees(before - {path}, pathsByNode) ||
               (path in before && before[path].nodeId == node && IndexAgrees(before, pathsByNode))
      modifies this`pathsByNode
      ensures IndexAgrees(devices, pathsByNode)
    {
      var paths := if node in pathsByNode then pathsByNode[node] else [];
      ghost var index := pathsByNode;
      var listed := path in paths;
      pathsByNode := pathsByNode[node := if listed then paths else paths + [path]];
      if IndexAgrees(before - {path}, index) {
        ListedFresh(before, devices, index, node, path);
      } else {
        ListedAlready(before, devices, index, node, path);
      }
    }

    method RebuildNodeDevicePaths(nodeId: nat)
      requires forall n: nat :: n != nodeId ==> EntryAgrees(devices, pathsByNode, n)
      modifies this`pathsByNode
      ensures IndexAgrees(devices, pathsByNode)
    {
      var rebuilt: seq<string> := [];
      var left := devices.Keys;
      while left != {}
        invariant left <= devices.Keys && NoDuplicates(rebuilt)
        invariant forall p :: p in rebuilt <==> p in devices && p !in left && devices[p].nodeId == nodeId
        decreases left
      {
        var path :| path in left;
        left := left - {path};
        if devices[path].nodeId == nodeId { rebuilt := rebuilt + [path]; }
      }
      ghost var index := pathsByNode;
      if rebuilt == [] {
        pathsByNode := pathsByNode - {nodeId};
      } else {
        pathsByNode := pathsByNode[nodeId := rebuilt];
      }
      forall n: nat ensures EntryAgrees(devices, pathsByNode, n) {
        if n != nodeId {
          assert EntryAgrees(devices, index, n);
        } else if rebuilt == [] {
          assert forall p <- devices :: devices[p].nodeId == nodeId ==> p in rebuilt;
        }
      }
    }

    /** Removes a device; streams and active devices that referred to it move to its node's preferred device. */
    method RemoveLogicalDevice(path: string)
      requires Valid()
      modifies this`devices, this`pathsByNode, this`streams, this`activeInput, this`activeOutput
      ensures Valid() && devices == old(devices) - {path}
      ensures path !in old(devices) ==> streams == old(streams) && activeInput == old(activeInput) &&
                                        activeOutput == old(activeOutput) && pathsByNode == old(pathsByNode)
      ensures path in old(devices) ==>
        exists r :: (IsPreferred(devices, old(devices)[path].nodeId, r) &&
                     streams == Redirected(old(streams), path, r) &&
                     activeInput == (if old(activeInput) == path then ReplacementFor(devices, "input", r)
                                     else old(activeInput)) &&
                     activeOutput == (if old(activeOutput) == path then ReplacementFor(devices, "output", r)
                                      else old(activeOutput)))
    {
      hide IndexAgrees, EntryAgrees, IsPreferred, StreamsLive, Redirected;
      if path !in devices { return; }
      var nodeId := devices[path].nodeId;
      OthersAgree(devices, pathsByNode, path);
      ghost var before, streamsBefore := devices, streams;
      devices := devices - {path};
      RebuildNodeDevicePaths(nodeId);
      EntryOf(devices, pathsByNode, nodeId);
      var replacement := FindDevicePathByNodeId(nodeId);
      PreferredLive(devices, nodeId, replacement);
      RedirectedLive(before, streamsBefore, path, replacement);
      RedirectStreams(path, replacement);
      ReplaceActives(path, replacement);
    }

    method ReplaceActives(gone: string, replacement: string)
      modifies this`activeInput, this`activeOutput
      ensures activeInput == if old(activeInput) == gone then ReplacementFor(devices, "input", replacement)
                             else old(activeInput)
      ensures activeOutput == if old(activeOutput) == gone then ReplacementFor(devices, "output", replacement)
                              else old(activeOutput)
    {
      if activeInput == gone {
        UpdateActiveInput(ReplacementFor(devices, "input", replacement));
      }
      if activeOutput == gone {
        UpdateActiveOutput(ReplacementFor(devices, "output", replacement));
      }
    }

    method RedirectStreams(gone: string, replacement: string)
      modifies this`streams
      ensures streams == Redirected(old(streams), gone, replacement)
    {
      var left := streams.Keys;
      ghost var before := streams;
      while left != {}
        invariant left <= streams.Keys == before.Keys
        invariant forall s <- before ::
          streams[s] == (if s !in left && before[s].device == gone then before[s].(device := replacement)
                         else before[s])
        decreases left
      {
        var s :| s in left;
        left := left - {s};
        if streams[s].device == gone {
          streams := streams[s := streams[s].(device := replacement)];
        }
      }
    }

    method UpdateActiveInput(path: string)
      modifies this`activeInput
      ensures activeInput == path
    {
      if activeInput == path { return; }
      activeInput := path;
    }

    method UpdateActiveOutput(path: string)
      modifies this`activeOutput
      ensures activeOutput == path
    {
      if activeOutput == path { return; }
      activeOutput := path;
    }

    /** Removes every device of a node, and with them its index entry. */
    method RemoveDeviceNode(id: nat)
      requires Valid()
      modifies this`devices, this`pathsByNode, this`streams, this`activeInput, this`activeOutput
      ensures Valid() && devices == map p <- old(devices) | old(devices)[p].nodeId != id :: old(devices)[p]
      ensures References() == WithoutNode(old(devices), old(References()), id)
    {
      hide RefsMoved, StreamsLive, Keyed, WithoutNode;
      if id !in pathsByNode {
        assert EntryAgrees(devices, pathsByNode, id);
        RefsStay(devices, References());
        assert devices == map p <- devices | devices[p].nodeId != id :: devices[p];
        NodeGone(devices, id, References(), References());
        return;
      }
      var paths := pathsByNode[id];
      ghost var before := devices;
      assert EntryAgrees(before, pathsByNode, id);
      RemoveAll(paths);
      assert EntryAgrees(devices, pathsByNode, id);
      if id in pathsByNode { EntryPresent(devices, pathsByNode, id); }
      assert pathsByNode - {id} == pathsByNode;
      pathsByNode := pathsByNode - {id};
      assert devices == map p <- before | before[p].nodeId != id :: before[p];
      NodeGone(before, id, old(References()), References());
    }

    // ---------- active devices ----------

    /** The active input after the state of a node was re-read. */
    method RefreshActiveInput(node: nat, preferred: string)
      requires ROOT !in devices
      modifies this`activeInput
      ensures activeInput == NextActive(devices, node, "input", preferred, old(activeInput))
    {
      if activeInput != ROOT {
        if activeInput in devices && devices[activeInput].nodeId == node {
          if preferred in devices && devices[preferred].direction == "input" {
            if activeInput != preferred { UpdateActiveInput(preferred); }
          } else {
            UpdateActiveInput(ROOT);
          }
        }
      } else if preferred in devices && devices[preferred].direction == "input" && devices[preferred].routeActive {
        UpdateActiveInput(preferred);
      }
    }

    /** The same for the active output. */
    method RefreshActiveOutput(node: nat, preferred: string)
      requires ROOT !in devices
      modifies this`activeOutput
      ensures activeOutput == NextActive(devices, node, "output", preferred, old(activeOutput))
    {
      if activeOutput != ROOT {
        if activeOutput in devices && devices[activeOutput].nodeId == node {
          if preferred in devices && devices[preferred].direction == "output" {
            if activeOutput != preferred { UpdateActiveOutput(preferred); }
          } else {
            UpdateActiveOutput(ROOT);
          }
        }
      } else if preferred in devices && devices[preferred].direction == "output" && devices[preferred].routeActive {
        UpdateActiveOutput(preferred);
      }
    }

    /** Re-reads the active devices of a node, unless an explicit choice on it is still pending. */
    method RefreshActiveDevicesForNode(node: nat)
      requires Valid()
      modifies this`activeInput, this`activeOutput, this`pendingInput, this`pendingOutput
      ensures Valid()
      ensures ActiveRefreshed(devices, node, old(Current()), Current())
    {
      hide IndexAgrees, IsPreferred, NextActive;
      if pendingInput != ROOT {
        if pendingInput in devices && devices[pendingInput].nodeId == node && devices[pendingInput].routeActive {
          pendingInput := ROOT;
          return;
        }
        if pendingInput in devices && devices[pendingInput].nodeId == node { return; }
      }
      if pendingOutput != ROOT {
        if pendingOutput in devices && devices[pendingOutput].nodeId == node && devices[pendingOutput].routeActive {
          pendingOutput := ROOT;
          return;
        }
        if pendingOutput in devices && devices[pendingOutput].nodeId == node { return; }
      }
      EntryOf(devices, pathsByNode, node);
      var preferred := FindDevicePathByNodeId(node);
      NextActiveLive(devices, node, "input", preferred, activeInput);
      NextActiveLive(devices, node, "output", preferred, activeOutput);
      RefreshActiveInput(node, preferred);
      RefreshActiveOutput(node, preferred);
    }

    ghost function Current(): Actives
      reads this
    {
      Actives(activeInput, activeOutput, pendingInput, pendingOutput)
    }

    ghost function References(): Refs
      reads this
    {
      Refs(streams, Current())
    }

    // ---------- refreshing a card ----------

    /** `RemoveLogicalDevice`, in terms of the references. */
    method RemoveOne(path: string)
      requires Valid()
      modifies this`devices, this`pathsByNode, this`streams, this`activeInput, this`activeOutput
      ensures Valid() && devices == old(devices) - {path}
      ensures RefsMoved(old(devices), devices, old(References()), References())
    {
      hide IndexAgrees, IsPreferred, StreamsLive, Redirected, RefsMoved, Keyed;
      RemoveLogicalDevice(path);
      if path in old(devices) {
        ghost var r :| IsPreferred(devices, old(devices)[path].nodeId, r) &&
            streams == Redirected(old(streams), path, r) &&
          activeInput == (if old(activeInput) == path then ReplacementFor(devices, "input", r) else old(activeInput)) &&
          activeOutput == (if old(activeOutput) == path then ReplacementFor(devices, "output", r)
                           else old(activeOutput));
        RefsMovedOnce(old(devices), path, r, old(References()), References());
      } else {
        assert devices == old(devices);
        RefsStay(devices, References());
      }
    }

    lemma NoRootDevice()
      requires Valid()
      ensures ROOT !in devices
    {
    }

    method RemoveAll(paths: seq<string>)
      requires Valid()
      modifies this`devices, this`pathsByNode, this`streams, this`activeInput, this`activeOutput
      ensures Valid() && devices == old(devices) - (set p <- paths)
      ensures RefsMoved(old(devices), devices, old(References()), References())
    {
      hide Valid, RefsMoved;
      NoRootDevice();
      RefsStay(devices, References());
      var i := 0;
      while i < |paths|
        invariant 0 <= i <= |paths| && Valid()
        invariant devices == old(devices) - (set p <- paths[..i])
        invariant RefsMoved(old(devices), devices, old(References()), References())
      {
        assert paths[..i + 1] == paths[..i] + [paths[i]];
        ghost var before, refs := devices, References();
        RemoveOne(paths[i]);
        RefsMovedTwice(old(devices), before, devices, old(References()), refs, References());
        i := i + 1;
      }
      assert paths[..|paths|] == paths;
    }

    method RemoveStaleRouteDevices(card: nat, direction: string, expected: set<string>)
      requires Valid()
      modifies this`devices, this`pathsByNode, this`streams, this`activeInput, this`activeOutput
      ensures Valid() && devices == old(devices) - Stale(old(devices), card, direction, expected)
      ensures RefsMoved(old(devices), devices, old(References()), References())
    {
      hide Valid, RefsMoved;
      var stale: seq<string> := [];
      var left := devices.Keys;
      while left != {}
        invariant left <= devices.Keys
        invariant forall p :: p in stale <==> p in Stale(devices, card, direction, expected) && p !in left
        decreases left
      {
        var path :| path in left;
        left := left - {path};
        if !devices[path].isRoute { continue; }
        if devices[path].cardId != card { continue; }
        if devices[path].direction != direction { continue; }
        if path in expected { continue; }
        stale := stale + [path];
      }
      assert (set p <- stale) == Stale(devices, card, direction, expected);
      RemoveAll(stale);
    }

    method RemoveFallbackDevices(nodes: seq<Node>)
      requires Valid()
      modifies this`devices, this`pathsByNode, this`streams, this`activeInput, this`activeOutput
      ensures Valid() && devices == old(devices) - FallbackPaths(nodes)
      ensures RefsMoved(old(devices), devices, old(References()), References())
    {
      hide Valid, NodePath, RefsMoved;
      var fallbacks: seq<string> := [];
      var i := 0;
      while i < |nodes|
        invariant 0 <= i <= |nodes|
        invariant forall p :: p in fallbacks <==> p in devices && p in FallbackPaths(nodes[..i])
      {
        assert nodes[..i + 1] == nodes[..i] + [nodes[i]];
        var path := NodePath(nodes[i].nodeId);
        if path in devices { fallbacks := fallbacks + [path]; }
        i := i + 1;
      }
      assert nodes[..|nodes|] == nodes;
      assert devices - (set p <- fallbacks) == devices - FallbackPaths(nodes);
      RemoveAll(fallbacks);
    }

    /** Fills in what a refresh sets besides the table entry itself. */
    method Describe(path: string, nodeName: string, serial: string, routeActive: bool)
      requires Valid() && path in devices
      modifies this`devices
      ensures Valid()
      ensures devices == old(devices)[path := old(devices)[path].(nodeName := nodeName, serial := serial,
                                                                  routeActive := routeActive)]
    {
      hide IndexAgrees;
      ghost var before := devices;
      devices := devices[path := devices[path].(nodeName := nodeName, serial := serial, routeActive := routeActive)];
      SameNodesAgree(before, devices, pathsByNode);
    }

    /** Adds or overwrites a device with everything a refresh knows about it. */
    method PutDevice(path: string, image: Device)
      requires Valid() && path != ROOT && image.nodeId < 0x1_0000_0000 && image.isRoute == (image.routeIndex >= 0)
      modifies this`devices, this`pathsByNode
      ensures Valid() && devices == old(devices)[path := image]
    {
      hide IndexAgrees, Valid, NodePath;
      AddLogicalDevice(path, image.nodeId, image.cardId, image.profileDevice, image.routeIndex, image.id, image.name,
                       image.kind, image.direction, image.available);
      Describe(path, image.nodeName, image.serial, image.routeActive);
    }

    method AddRouteDevices(card: U32, cardDescription: string, nodes: seq<Node>, inferred: Option<nat>,
                           direction: string, kept: seq<Route>)
      requires Valid() && nodes != [] && SmallIndexes(kept) && forall n <- nodes :: n.nodeId < 0x1_0000_0000
      modifies this`devices, this`pathsByNode
      ensures Valid() && devices == AddImages(old(devices), card, cardDescription, nodes, inferred, direction, kept)
    {
      hide Valid, RouteImage, RoutePath;
      var i := 0;
      while i < |kept|
        invariant 0 <= i <= |kept| && Valid()
        invariant devices == AddImages(old(devices), card, cardDescription, nodes, inferred, direction, kept[..i])
      {
        ImageInRange(card, cardDescription, nodes, inferred, direction, kept[i]);
        PutDevice(RoutePath(card, DirectionId(direction), kept[i].index),
                  RouteImage(card, cardDescription, nodes, inferred, direction, kept[i]));
        assert kept[..i + 1][..i] == kept[..i];
        i := i + 1;
      }
      assert kept[..|kept|] == kept;
    }

    method AddFallbackDevices(card: nat, direction: string, nodes: seq<Node>)
      requires Valid() && forall n <- nodes :: n.nodeId < 0x1_0000_0000
      modifies this`devices, this`pathsByNode
      ensures Valid() && devices == AddFallbacks(old(devices), card, direction, nodes)
    {
      hide Valid, NodePath, ToString, OrElse, FallbackName;
      var i := 0;
      while i < |nodes|
        invariant 0 <= i <= |nodes| && Valid()
        invariant devices == AddFallbacks(old(devices), card, direction, nodes[..i])
      {
        NodePathIsNotRoot(nodes[i].nodeId);
        PutDevice(NodePath(nodes[i].nodeId), FallbackImage(card, direction, nodes[i]));
        assert nodes[..i + 1][..i] == nodes[..i];
        i := i + 1;
      }
      assert nodes[..|nodes|] == nodes;
    }

    method RefreshActiveDevices(nodes: seq<Node>)
      requires Valid()
      modifies this`activeInput, this`activeOutput, this`pendingInput, this`pendingOutput
      ensures Valid() && AllRefreshed(devices, nodes, old(Current()), Current())
    {
      hide Valid, ActiveRefreshed;
      var i := 0;
      while i < |nodes|
        invariant 0 <= i <= |nodes| && Valid()
        invariant AllRefreshed(devices, nodes[..i], old(Current()), Current())
      {
        ghost var before := Current();
        RefreshActiveDevicesForNode(nodes[i].nodeId);
        OneMoreRefreshed(devices, nodes[..i], nodes[i], old(Current()), before, Current());
        assert nodes[..i + 1] == nodes[..i] + [nodes[i]];
        i := i + 1;
      }
      assert nodes[..|nodes|] == nodes;
    }

    /** The card's nodes, each remembered from its devices in whatever order they are met. */
    method SnapshotNodes(card: nat) returns (nodes: map<nat, Node>)
      ensures IsSnapshot(devices, card, nodes)
    {
      hide SnapshotOf;
      nodes := map[];
      var left := devices.Keys;
      ghost var seen := {};
      NothingSeen(devices, card);
      while left != {}
        invariant left <= devices.Keys && seen == devices.Keys - left
        invariant SnapshotOf(devices, seen, card, nodes)
        decreases left
      {
        var path :| path in left;
        left := left - {path};
        var d := devices[path];
        if d.cardId == card {
          SnapshotStep(devices, seen, path, card, nodes);
        } else {
          SnapshotSkips(devices, seen, path, card, nodes);
        }
        seen := seen + {path};
        if d.cardId != card { continue; }
        var node := if d.nodeId in nodes then nodes[d.nodeId] else Node(d.nodeId, "", "", "", "", "", -1);
        node := node.(nodeId := d.nodeId);
        if node.nodeName == "" { node := node.(nodeName := d.nodeName); }
        if node.serial == "" { node := node.(serial := d.serial); }
        if node.direction == "" { node := node.(direction := d.direction); }
        if node.kind == "" { node := node.(kind := d.kind); }
        if node.fallbackName == "" { node := node.(fallbackName := d.name); }
        if node.profileDevice < 0 { node := node.(profileDevice := d.profileDevice); }
        nodes := nodes[d.nodeId := node];
      }
      assert seen == devices.Keys;
    }

    method CollectDirectionNodes(nodes: map<nat, Node>, direction: string) returns (r: seq<Node>)
      ensures r == DirectionNodes(nodes, direction)
    {
      var ids := SortKeys(NodeIdsOf(nodes, direction));
      AscendingFacts(NodeIdsOf(nodes, direction));
      r := [];
      var i := 0;
      while i < |ids|
        invariant 0 <= i <= |ids| && |r| == i
        invariant forall j | 0 <= j < i :: ids[j] in NodeIdsOf(nodes, direction) && r[j] == nodes[ids[j]]
      {
        assert ids[i] in NodeIdsOf(nodes, direction);
        r := r + [nodes[ids[i]]];
        i := i + 1;
      }
    }

    method CollectDirectionRoutes(routes: map<nat, Route>, direction: nat) returns (r: seq<Route>)
      requires Keyed(routes)
      ensures r == DirectionRoutes(routes, direction)
    {
      var indexes := SortKeys(RouteIndexes(routes, direction));
      AscendingFacts(RouteIndexes(routes, direction));
      r := [];
      var i := 0;
      while i < |indexes|
        invariant 0 <= i <= |indexes| && |r| == i
        invariant forall j | 0 <= j < i ::
          indexes[j] in RouteIndexes(routes, direction) && r[j] == RouteAt(routes, direction, indexes[j])
      {
        assert indexes[i] in RouteIndexes(routes, direction);
        r := r + [routes[RouteKey(direction, indexes[i])]];
        i := i + 1;
      }
    }

    /** One direction of a refresh. */
    method RefreshDirection(card: U32, nodes: map<nat, Node>, direction: string)
      requires Valid() && card in cards && forall n <- nodes :: nodes[n].nodeId == n < 0x1_0000_0000
      modifies this`devices, this`pathsByNode, this`streams, this`activeInput, this`activeOutput, this`pendingInput,
               this`pendingOutput
      ensures Valid()
      ensures SmallIndexes(DirectionRoutes(cards[card], DirectionId(direction))) &&
              devices == RefreshedDirection(old(devices), card, DescriptionOf(card), DirectionNodes(nodes, direction),
                                            DirectionRoutes(cards[card], DirectionId(direction)), direction)
      ensures DirectionSettled(old(devices), old(References()), devices, References(), card, DescriptionOf(card),
                               DirectionNodes(nodes, direction), DirectionRoutes(cards[card], DirectionId(direction)),
                                   direction)
    {
      hide Valid, AllRefreshed, AddImages, AddFallbacks, Stale, FallbackPaths, DirectionNodes, DirectionRoutes,
          InferredRoute,
           KeptRoutes, ImagePaths, RefsMoved, DirectionSettled, RefreshedDirection;
      CardKeyed(card);
      RoutesInOrder(cards[card], DirectionId(direction));
      NodesInOrder(nodes, direction);
      var directionNodes := CollectDirectionNodes(nodes, direction);
      if directionNodes == [] {
        NothingSettled(devices, References(), card, DescriptionOf(card),
                       DirectionRoutes(cards[card], DirectionId(direction)), direction);
        return;
      }
      var directionRoutes := CollectDirectionRoutes(cards[card], DirectionId(direction));
      if directionRoutes == [] {
        RemoveStaleRouteDevices(card, direction, {});
        ghost var trimmed, mid := devices, References();
        AddFallbackDevices(card, direction, directionNodes);
        RefreshActiveDevices(directionNodes);
        SettledWithoutRoutes(old(devices), old(References()), trimmed, mid, devices, References(), card,
                             DescriptionOf(card), directionNodes, direction);
        return;
      }
      var inferred := InferredRoute(directionNodes, directionRoutes);
      var kept := KeptRoutes(directionRoutes, inferred);
      if kept == [] {
        NoImages(old(devices), card, DescriptionOf(card), directionNodes, inferred, direction);
        DropStaleAndFallbacks(card, directionNodes, direction, {});
        ghost var mid := References();
        RefreshActiveDevices(directionNodes);
        SettledWithRoutes(old(devices), old(References()), old(devices), mid, devices, References(), card,
                          DescriptionOf(card), directionNodes, directionRoutes, direction);
        return;
      }
      AddRouteDevices(card, DescriptionOf(card), directionNodes, inferred, direction, kept);
      ghost var widened := devices;
      DropStaleAndFallbacks(card, directionNodes, direction, ImagePaths(card, direction, kept));
      ghost var mid := References();
      RefreshActiveDevices(directionNodes);
      SettledWithRoutes(old(devices), old(References()), widened, mid, devices, References(), card, DescriptionOf(card),
                        directionNodes, directionRoutes, direction);
    }

    method DropStaleAndFallbacks(card: nat, nodes: seq<Node>, direction: string, expected: set<string>)
      requires Valid()
      modifies this`devices, this`pathsByNode, this`streams, this`activeInput, this`activeOutput
      ensures Valid() && devices ==
          old(devices) - (Stale(old(devices), card, direction, expected) + FallbackPaths(nodes))
      ensures RefsMoved(old(devices), devices, old(References()), References())
    {
      hide Valid, RefsMoved, Stale, FallbackPaths;
      NoRootDevice();
      RemoveStaleRouteDevices(card, direction, expected);
      ghost var before, refs := devices, References();
      RemoveFallbackDevices(nodes);
      RefsMovedTwice(old(devices), before, devices, old(References()), refs, References());
    }

    lemma CardKeyed(card: nat)
      requires Valid() && card in cards
      ensures Keyed(cards[card])
    {
    }

    function DescriptionOf(card: nat): string
      reads this`cardDescriptions
    {
      if card in cardDescriptions then cardDescriptions[card] else ""
    }

    /** Reconciles the devices of a card with its routes, output first. */
    method RefreshLogicalDevicesForRouteDevice(card: U32)
      requires Valid()
      modifies this`devices, this`pathsByNode, this`streams, this`activeInput, this`activeOutput, this`pendingInput,
               this`pendingOutput
      ensures Valid() && OnlyRetargeted(old(streams), streams)
      ensures CardOutcome(old(devices), old(References()), devices, References(), card, DescriptionOf(card), cards)
    {
      hide IndexAgrees, RefreshedDirection, DirectionNodes, DirectionRoutes, SnapshotOf, DirectionSettled;
      if card !in cards { return; }
      var nodes := SnapshotNodes(card);
      SnapshotNodesInRange(devices, card, nodes);
      if nodes == map[] {
        NothingToRefresh(devices, References(), card, DescriptionOf(card), cards[card]);
        return;
      }
      RoutesInOrder(cards[card], DIRECTION_OUTPUT);
      RoutesInOrder(cards[card], DIRECTION_INPUT);
      RefreshDirection(card, nodes, "output");
      ghost var mid := References();
      RefreshDirection(card, nodes, "input");
      assert MidSettled(old(devices), old(References()), mid, devices, References(), card, DescriptionOf(card), nodes,
                        cards[card]);
      SettledRetargets(old(devices), old(References()), devices, References(), card, DescriptionOf(card), nodes,
                       cards[card]);
    }
  }

  /** The effect of refreshing a card with the given snapshot; for a card whose low 31 bits are not all zero it is
      exact in each direction. */
  ghost predicate CardRefreshed(before: map<string, Device>, after: map<string, Device>, card: U32,
                                cardDescription: string, nodes: map<nat, Node>, routes: map<nat, Route>)
    requires Keyed(routes)
  {
    var outputRoutes, inputRoutes := DirectionRoutes(routes, DIRECTION_OUTPUT),
        DirectionRoutes(routes, DIRECTION_INPUT);
    SmallIndexes(outputRoutes) && SmallIndexes(inputRoutes) &&
    after == RefreshedCard(before, card, cardDescription, DirectionNodes(nodes, "output"), outputRoutes,
                           DirectionNodes(nodes, "input"), inputRoutes)
  }

  /** References leave the devices that were removed, and then the active devices of the nodes are read again. */
  ghost predicate Settles(widened: map<string, Device>, trimmed: map<string, Device>, after: map<string, Device>,
                          nodes: seq<Node>, refs: Refs, mid: Refs, refs': Refs)
  {
    RefsMoved(widened, trimmed, refs, mid) && refs'.streams == mid.streams &&
    AllRefreshed(after, nodes, mid.active, refs'.active)
  }

  /** What refreshing one direction does to the references. */
  ghost predicate DirectionSettled(before: map<string, Device>, refs: Refs, after: map<string, Device>, refs': Refs,
                                   card: U32,
                                   cardDescription: string, nodes: seq<Node>, routes: seq<Route>, direction: string)
    requires SmallIndexes(routes)
  {
    if nodes == [] then refs' == refs
    else
      var widened := Widened(before, card, cardDescription, nodes, routes, direction);
      var trimmed := widened - Dropped(widened, card, nodes, routes, direction);
      exists mid: Refs :: Settles(widened, trimmed, after, nodes, refs, mid, refs')
  }

  lemma SettledWithoutRoutes(before: map<string, Device>, refs: Refs, trimmed: map<string, Device>, mid: Refs,
                             after: map<string, Device>, refs': Refs, card: U32, cardDescription: string,
                                 nodes: seq<Node>,
                             direction: string)
    requires nodes != [] && trimmed == before - Stale(before, card, direction, {})
    requires after == AddFallbacks(trimmed, card, direction, nodes) &&
        Settles(before, trimmed, after, nodes, refs, mid, refs')
    ensures after == RefreshedDirection(before, card, cardDescription, nodes, [], direction)
    ensures DirectionSettled(before, refs, after, refs', card, cardDescription, nodes, [], direction)
  {
    hide Settles, Stale, AddFallbacks;
    assert Dropped(before, card, nodes, [], direction) == Stale(before, card, direction, {});
    assert Widened(before, card, cardDescription, nodes, [], direction) == before;
  }

  lemma SettledWithRoutes(before: map<string, Device>, refs: Refs, widened: map<string, Device>, mid: Refs,
                          after: map<string, Device>, refs': Refs, card: U32, cardDescription: string, nodes: seq<Node>,
                          routes: seq<Route>, direction: string)
    requires nodes != [] && routes != [] && SmallIndexes(routes)
    requires var inferred := InferredRoute(nodes, routes); var kept := KeptRoutes(routes, inferred);
             widened == AddImages(before, card, cardDescription, nodes, inferred, direction, kept) &&
             after == widened - (Stale(widened, card, direction,
                                       ImagePaths(card, direction, kept)) + FallbackPaths(nodes))
    requires Settles(widened, after, after, nodes, refs, mid, refs')
    ensures after == RefreshedDirection(before, card, cardDescription, nodes, routes, direction)
    ensures DirectionSettled(before, refs, after, refs', card, cardDescription, nodes, routes, direction)
  {
    hide Settles, Stale, AddImages, FallbackPaths, InferredRoute, KeptRoutes, ImagePaths;
    var kept := KeptRoutes(routes, InferredRoute(nodes, routes));
    assert Widened(before, card, cardDescription, nodes, routes, direction) == widened;
    assert Dropped(widened, card, nodes, routes, direction) ==
           Stale(widened, card, direction, ImagePaths(card, direction, kept)) + FallbackPaths(nodes);
  }

  lemma NothingSettled(devices: map<string, Device>, refs: Refs, card: U32, cardDescription: string, routes: seq<Route>,
                       direction: string)
    requires SmallIndexes(routes)
    ensures devices == RefreshedDirection(devices, card, cardDescription, [], routes, direction)
    ensures DirectionSettled(devices, refs, devices, refs, card, cardDescription, [], routes, direction)
  {
  }

  ghost predicate MidSettled(before: map<string, Device>, refs: Refs, mid: Refs, after: map<string, Device>,
                             refs': Refs,
                             card: U32, cardDescription: string, nodes: map<nat, Node>, routes: map<nat, Route>)
    requires Keyed(routes)
  {
    var outputRoutes, inputRoutes := DirectionRoutes(routes, DIRECTION_OUTPUT),
        DirectionRoutes(routes, DIRECTION_INPUT);
    SmallIndexes(outputRoutes) && SmallIndexes(inputRoutes) &&
    var outputs, inputs := DirectionNodes(nodes, "output"), DirectionNodes(nodes, "input");
    var first := RefreshedDirection(before, card, cardDescription, outputs, outputRoutes, "output");
    DirectionSettled(before, refs, first, mid, card, cardDescription, outputs, outputRoutes, "output") &&
    DirectionSettled(first, mid, after, refs', card, cardDescription, inputs, inputRoutes, "input")
  }

  /** What refreshing a card does to the references, output first. */
  ghost predicate CardSettled(before: map<string, Device>, refs: Refs, after: map<string, Device>, refs': Refs,
                              card: U32, cardDescription: string, nodes: map<nat, Node>, routes: map<nat, Route>)
    requires Keyed(routes)
  {
    exists mid: Refs :: MidSettled(before, refs, mid, after, refs', card, cardDescription, nodes, routes)
  }

  /** What a refresh request for a card leaves: nothing changed for an unknown card, else the refresh of some
      snapshot. */
  ghost predicate CardOutcome(before: map<string, Device>, refs: Refs, after: map<string, Device>, refs': Refs,
                              card: U32, cardDescription: string, cards: map<nat, map<nat, Route>>)
    requires forall c <- cards :: Keyed(cards[c])
  {
    if card !in cards then after == before && refs' == refs
    else exists nodes :: (IsSnapshot(before, card, nodes) &&
                          CardRefreshed(before, after, card, cardDescription, nodes, cards[card]) &&
                          CardSettled(before, refs, after, refs', card, cardDescription, nodes, cards[card]))
  }

  lemma SettledRetargets(before: map<string, Device>, refs: Refs, after: map<string, Device>, refs': Refs, card: U32,
                         cardDescription: string, nodes: map<nat, Node>, routes: map<nat, Route>)
    requires Keyed(routes) && CardSettled(before, refs, after, refs', card, cardDescription, nodes, routes)
    ensures OnlyRetargeted(refs.streams, refs'.streams)
  {
    hide DirectionNodes, DirectionRoutes, RefreshedDirection, Widened, Dropped, AllRefreshed, StreamMoved, ActiveMoved;
  }

  /** A refresh of a card whose low 31 bits are not all zero leaves each direction that has a node exactly as its routes
      say. */
  lemma CardRefreshedExact(before: map<string, Device>, after: map<string, Device>, card: U32, cardDescription: string,
                           nodes: map<nat, Node>, routes: map<nat, Route>)
    requires card % 0x8000_0000 != 0 && Keyed(routes)
    requires forall n <- nodes :: nodes[n].nodeId == n < 0x1_0000_0000
    requires CardRefreshed(before, after, card, cardDescription, nodes, routes)
    ensures forall direction | direction == "output" || direction == "input" ::
      var ns, rs := DirectionNodes(nodes, direction), DirectionRoutes(routes, DirectionId(direction));
      ns != [] ==> SmallIndexes(rs) && DirectionExact(after, card, cardDescription, ns, rs, direction)
  {
    hide DirectionNodes, DirectionRoutes, RefreshedCard, DirectionExact;
    RoutesInOrder(routes, DIRECTION_OUTPUT);
    RoutesInOrder(routes, DIRECTION_INPUT);
    NodesInOrder(nodes, "output");
    NodesInOrder(nodes, "input");
    DirectionsApart(nodes);
    RefreshExact(before, card, cardDescription, DirectionNodes(nodes, "output"),
                 DirectionRoutes(routes, DIRECTION_OUTPUT),
                 DirectionNodes(nodes, "input"), DirectionRoutes(routes, DIRECTION_INPUT));
  }

  lemma NothingToRefresh(devices: map<string, Device>, refs: Refs, card: U32, cardDescription: string,
                         routes: map<nat, Route>)
    requires Keyed(routes)
    ensures CardRefreshed(devices, devices, card, cardDescription, map[], routes)
    ensures CardSettled(devices, refs, devices, refs, card, cardDescription, map[], routes)
  {
    RoutesInOrder(routes, DIRECTION_OUTPUT);
    RoutesInOrder(routes, DIRECTION_INPUT);
    assert NodeIdsOf(map[], "output") == {} && NodeIdsOf(map[], "input") == {};
    assert DirectionNodes(map[], "output") == [] && DirectionNodes(map[], "input") == [];
    assert MidSettled(devices, refs, refs, devices, refs, card, cardDescription, map[], routes);
  }

  lemma NoImages(devices: map<string, Device>, card: U32, cardDescription: string, nodes: seq<Node>,
                 inferred: Option<nat>, direction: string)
    requires nodes != []
    ensures AddImages(devices, card, cardDescription, nodes, inferred, direction, []) == devices
    ensures ImagePaths(card, direction, []) == {}
  {
  }

  lemma {:induction false} SelectFromIsNode(nodes: seq<Node>, route: Route, default: Node)
    ensures SelectFrom(nodes, route, default) == default || SelectFrom(nodes, route, default) in nodes
  {
    if nodes != [] && !NodeMatches(nodes[0], route) { SelectFromIsNode(nodes[1..], route, default); }
  }

  lemma SelectedIsNode(nodes: seq<Node>, route: Route)
    requires nodes != []
    ensures SelectedNode(nodes, route) in nodes
  {
    SelectFromIsNode(nodes, route, nodes[0]);
  }

  lemma ImageInRange(card: U32, cardDescription: string, nodes: seq<Node>, inferred: Option<nat>, direction: string,
                     route: Route)
    requires nodes != [] && route.index < 0x8000_0000 && forall n <- nodes :: n.nodeId < 0x1_0000_0000
    ensures var image := RouteImage(card, cardDescription, nodes, inferred, direction, route);
            image.nodeId < 0x1_0000_0000 && image.isRoute && image.routeIndex >= 0
    ensures RoutePath(card, DirectionId(direction), route.index) != ROOT
  {
    hide RouteId, ToString, OrElse, RouteDisplayName, FallbackName, SelectedNode, RoutePath, InferredRoute;
    SelectedIsNode(nodes, route);
    RoutePathIsNotRoot(card, DirectionId(direction), route.index);
  }

  lemma NodePathIsNotRoot(node: nat)
    ensures NodePath(node) != ROOT
  {
    PathsInjective(node, 0);
  }

  /** The index speaks only of which device is on which node. */
  lemma SameNodesAgree(before: map<string, Device>, after: map<string, Device>, index: map<nat, seq<string>>)
    requires IndexAgrees(before, index) && before.Keys == after.Keys
    requires forall p <- before :: before[p].nodeId == after[p].nodeId
    ensures IndexAgrees(after, index)
  {
    forall n: nat ensures EntryAgrees(after, index, n) {
      assert EntryAgrees(before, index, n);
    }
  }

  lemma RoutePathIsNotRoot(card: U32, direction: U32, index: U32)
    ensures RoutePath(card, direction, index) != ROOT
  {
    PathsInjective(RouteId(card, direction, index), 0);
  }

  function Without(s: seq<string>, x: string): (r: seq<string>)
    ensures forall p :: p in r <==> p in s && p != x
    ensures NoDuplicates(s) ==> NoDuplicates(r)
  {
    if s == [] then []
    else
      assert NoDuplicates(s) ==> NoDuplicates(s[1..]) && s[0] !in s[1..];
      var rest := Without(s[1..], x);
      if s[0] == x then rest else [s[0]] + rest
  }
}
