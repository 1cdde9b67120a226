/** What a refresh of a card leaves alone: devices that are none of the card's, and everything that refers to them. */
module AudioFrame {
  import opened AudioModel
  import opened AudioReferences
  import opened AudioRefresh
  import opened AudioRegistry

  // ---------- one direction ----------

  /** A path that one direction of a refresh does not write: no route device of the card, none of its route paths and no
      node's own path. */
  ghost predicate Outside(devices: map<string, Device>, card: U32, nodes: seq<Node>, direction: string, p: string) {
    (p in devices ==> !IsCardRoute(devices[p], card, direction)) && p !in FallbackPaths(nodes) &&
    forall index: U32 :: p != RoutePath(card, DirectionId(direction), index)
  }

  lemma OutsideStays(devices: map<string, Device>, card: U32, cardDescription: string, nodes: seq<Node>,
                     routes: seq<Route>, direction: string, p: string)
    requires nodes != [] && NodesInRange(nodes) && SmallIndexes(routes) && DistinctIndexes(routes)
    requires Outside(devices, card, nodes, direction, p)
    ensures var widened := Widened(devices, card, cardDescription, nodes, routes, direction);
            p !in Dropped(widened, card, nodes, routes, direction) &&
            (p in widened <==> p in devices) && (p in devices ==> widened[p] == devices[p])
  {
    hide RoutePath, NodePath, RouteImage, InferredRoute, AddImages, KeptRoutes;
    if routes != [] {
      var inferred := InferredRoute(nodes, routes);
      KeptDistinct(routes, inferred);
      ImagesAdded(devices, card, cardDescription, nodes, inferred, direction, KeptRoutes(routes, inferred));
    }
  }

  /** An active or pending device that is on none of the nodes stays when they are read again. */
  lemma {:induction false} OthersStayActive(devices: map<string, Device>, nodes: seq<Node>, a: Actives, a': Actives,
                                            p: string)
    requires AllRefreshed(devices, nodes, a, a')
    requires p in devices ==> forall n <- nodes :: n.nodeId != devices[p].nodeId
    ensures p != ROOT && a.input == p ==> a'.input == p
    ensures p != ROOT && a.output == p ==> a'.output == p
    ensures a.pendingInput == p ==> a'.pendingInput == p
    ensures a.pendingOutput == p ==> a'.pendingOutput == p
    decreases |nodes|
  {
    hide ActiveRefreshed;
    if nodes != [] {
      var b: Actives :| ActiveRefreshed(devices, nodes[0].nodeId, a, b) && AllRefreshed(devices, nodes[1..], b, a');
      OtherStaysActive(devices, nodes[0].nodeId, a, b, p);
      OthersStayActive(devices, nodes[1..], b, a', p);
    }
  }

  lemma OtherStaysActive(devices: map<string, Device>, node: nat, a: Actives, a': Actives, p: string)
    requires ActiveRefreshed(devices, node, a, a') && (p in devices ==> node != devices[p].nodeId)
    ensures p != ROOT && a.input == p ==> a'.input == p
    ensures p != ROOT && a.output == p ==> a'.output == p
    ensures a.pendingInput == p ==> a'.pendingInput == p
    ensures a.pendingOutput == p ==> a'.pendingOutput == p
  {
    hide IsPreferred;
  }

  /** References to one device, and what may not become of them. */
  ghost predicate StreamsAt(refs: Refs, refs': Refs, p: string) {
    forall s <- refs.streams | refs.streams[s].device == p :: s in refs'.streams && refs'.streams[s] == refs.streams[s]
  }

  ghost predicate ActivesAt(refs: Refs, refs': Refs, p: string) {
    (refs.active.input == p ==> refs'.active.input == p) && (refs.active.output == p ==> refs'.active.output == p) &&
    (refs.active.pendingInput == p ==> refs'.active.pendingInput == p) &&
    (refs.active.pendingOutput == p ==> refs'.active.pendingOutput == p)
  }

  lemma DirectionKeeps(before: map<string, Device>, refs: Refs, after: map<string, Device>, refs': Refs, card: U32,
                       cardDescription: string, nodes: seq<Node>, routes: seq<Route>, direction: string, p: string)
    requires NodesInRange(nodes) && SmallIndexes(routes) && DistinctIndexes(routes)
    requires after == RefreshedDirection(before, card, cardDescription, nodes, routes, direction)
    requires DirectionSettled(before, refs, after, refs', card, cardDescription, nodes, routes, direction)
    requires Outside(before, card, nodes, direction, p)
    ensures (p in after <==> p in before) && (p in before ==> after[p] == before[p]) && StreamsAt(refs, refs', p)
    ensures p != ROOT && (p in before ==> forall n <- nodes :: n.nodeId != before[p].nodeId) ==>
      ActivesAt(refs, refs', p)
  {
    hide Widened, Dropped, RefreshedDirection, AllRefreshed, FallbackPaths, RoutePath, IsPreferred;
    RefreshLeaves(before, card, cardDescription, nodes, routes, direction, p);
    if nodes != [] {
      OutsideStays(before, card, cardDescription, nodes, routes, direction, p);
      var widened := Widened(before, card, cardDescription, nodes, routes, direction);
      var trimmed := widened - Dropped(widened, card, nodes, routes, direction);
      var mid: Refs :| Settles(widened, trimmed, after, nodes, refs, mid, refs');
      if p != ROOT && (p in before ==> forall n <- nodes :: n.nodeId != before[p].nodeId) {
        OthersStayActive(after, nodes, mid.active, refs'.active, p);
      }
    }
  }

  /** With routes, a stream of a device that is dropped follows to a preferred device of the same node. */
  lemma DroppedStreamsFollow(before: map<string, Device>, refs: Refs, after: map<string, Device>, refs': Refs,
                             card: U32,
                             cardDescription: string, nodes: seq<Node>, routes: seq<Route>, direction: string,
                                 s: string)
    requires nodes != [] && routes != [] && SmallIndexes(routes) && s in refs.streams
    requires after == RefreshedDirection(before, card, cardDescription, nodes, routes, direction)
    requires DirectionSettled(before, refs, after, refs', card, cardDescription, nodes, routes, direction)
    ensures var d, widened := refs.streams[s].device, Widened(before, card, cardDescription, nodes, routes, direction);
            s in refs'.streams && StreamMoved(widened, after, d, refs'.streams[s].device)
  {
    hide Widened, Dropped, AllRefreshed, StreamMoved, ActiveMoved;
  }

  /** Without routes, a stream of a route device of the card loses its device exactly when all devices of the node are
      route devices of the card in this direction, although the node has its own device again afterwards: that one is
      added only after the stream was turned away. */
  lemma StreamsLostExactly(before: map<string, Device>, refs: Refs, after: map<string, Device>, refs': Refs, card: U32,
                           cardDescription: string, nodes: seq<Node>, direction: string, s: string, node: Node)
    requires node in nodes && NodesInRange(nodes) && ROOT !in before && s in refs.streams
    requires after == RefreshedDirection(before, card, cardDescription, nodes, [], direction)
    requires DirectionSettled(before, refs, after, refs', card, cardDescription, nodes, [], direction)
    requires var d := refs.streams[s].device;
             d in before && IsCardRoute(before[d], card, direction) && before[d].nodeId == node.nodeId
    ensures s in refs'.streams && NodePath(node.nodeId) in after
    ensures refs'.streams[s].device == ROOT <==>
            forall q <- before | before[q].nodeId == node.nodeId :: IsCardRoute(before[q], card, direction)
  {
    hide AllRefreshed, ActiveMoved, NodePath, FallbackImage, AddFallbacks;
    var trimmed := before - Stale(before, card, direction, {});
    assert Widened(before, card, cardDescription, nodes, [], direction) == before;
    assert before - Dropped(before, card, nodes, [], direction) == trimmed;
    FallbacksAdded(trimmed, card, direction, nodes);
    var mid: Refs :| Settles(before, trimmed, after, nodes, refs, mid, refs');
    assert StreamMoved(before, trimmed, refs.streams[s].device, refs'.streams[s].device);
    NoneLeftExactly(trimmed, node.nodeId, refs'.streams[s].device);
    if forall p <- trimmed :: trimmed[p].nodeId != node.nodeId {
      forall q <- before | before[q].nodeId == node.nodeId ensures IsCardRoute(before[q], card, direction) {
        assert q !in trimmed;
      }
    }
  }

  lemma NoneLeftExactly(devices: map<string, Device>, node: nat, path: string)
    requires ROOT !in devices && IsPreferred(devices, node, path)
    ensures path == ROOT <==> forall p <- devices :: devices[p].nodeId != node
  {
  }

  // ---------- the whole card ----------

  /** A path that is none of the card's: no route device of it, none of its route paths, and not the own path of a
      node with a device on it. */
  ghost predicate NotOfCard(devices: map<string, Device>, card: U32, p: string) {
    (p in devices ==> !(devices[p].isRoute && devices[p].cardId == card)) &&
    (forall q <- devices | devices[q].cardId == card :: p != NodePath(devices[q].nodeId)) &&
    forall index: U32 :: p != RoutePath(card, DIRECTION_OUTPUT, index) && p != RoutePath(card, DIRECTION_INPUT, index)
  }

  /** No device of the card is on the node of the device. */
  ghost predicate OffCard(devices: map<string, Device>, card: U32, p: string) {
    p in devices ==> forall q <- devices | devices[q].cardId == card :: devices[q].nodeId != devices[p].nodeId
  }

  /** Whatever a refresh of a card does, a path that is none of the card's keeps its device and its streams, and if it
      is moreover on none of the card's nodes, it stays active and it stays pending. */
  lemma RefreshKeepsReferences(before: map<string, Device>, refs: Refs, after: map<string, Device>, refs': Refs,
                               card: U32, cardDescription: string, cards: map<nat, map<nat, Route>>, p: string)
    requires forall c <- cards :: Keyed(cards[c])
    requires forall q <- before :: before[q].nodeId < 0x1_0000_0000
    requires CardOutcome(before, refs, after, refs', card, cardDescription, cards) && NotOfCard(before, card, p)
    ensures (p in after <==> p in before) && (p in before ==> after[p] == before[p]) && StreamsAt(refs, refs', p)
    ensures p != ROOT && OffCard(before, card, p) ==> ActivesAt(refs, refs', p)
  {
    hide DirectionNodes, DirectionRoutes, RefreshedDirection, DirectionSettled, FallbackPaths, RoutePath, NodePath,
        SnapshotOf,
         Keyed;
    if card in cards {
      var nodes :| IsSnapshot(before, card, nodes) &&
          CardRefreshed(before, after, card, cardDescription, nodes, cards[card]) &&
                   CardSettled(before, refs, after, refs', card, cardDescription, nodes, cards[card]);
      var mid: Refs :| MidSettled(before, refs, mid, after, refs', card, cardDescription, nodes, cards[card]);
      SnapshotNodesInRange(before, card, nodes);
      RoutesInOrder(cards[card], DIRECTION_OUTPUT);
      RoutesInOrder(cards[card], DIRECTION_INPUT);
      var outputs, inputs := DirectionNodes(nodes, "output"), DirectionNodes(nodes, "input");
      var outputRoutes, inputRoutes := DirectionRoutes(cards[card], DIRECTION_OUTPUT),
          DirectionRoutes(cards[card], DIRECTION_INPUT);
      OutsideDirection(before, card, nodes, "output", p);
      OutsideDirection(before, card, nodes, "input", p);
      var first := RefreshedDirection(before, card, cardDescription, outputs, outputRoutes, "output");
      DirectionKeeps(before, refs, first, mid, card, cardDescription, outputs, outputRoutes, "output", p);
      DirectionKeeps(first, mid, after, refs', card, cardDescription, inputs, inputRoutes, "input", p);
    }
  }

  lemma OutsideDirection(devices: map<string, Device>, card: U32, nodes: map<nat, Node>, direction: string, p: string)
    requires direction == "output" || direction == "input"
    requires nodes.Keys == set q <- devices | devices[q].cardId == card :: devices[q].nodeId
    requires forall n <- nodes :: nodes[n].nodeId == n < 0x1_0000_0000
    requires NotOfCard(devices, card, p)
    ensures NodesInRange(DirectionNodes(nodes, direction)) &&
        Outside(devices, card, DirectionNodes(nodes, direction), direction, p)
    ensures OffCard(devices, card, p) && p in devices ==>
            forall n <- DirectionNodes(nodes, direction) :: n.nodeId != devices[p].nodeId
  {
    hide RoutePath, NodePath, DirectionNodes;
    NodesInOrder(nodes, direction);
    forall n <- DirectionNodes(nodes, direction)
      ensures p != NodePath(n.nodeId) && (OffCard(devices, card, p) && p in devices ==> n.nodeId != devices[p].nodeId)
    {
      assert n.nodeId in nodes.Keys;
      var q :| q in devices && devices[q].cardId == card && devices[q].nodeId == n.nodeId;
    }
  }

  /** A stream without a device stays without one. */
  lemma NoneStaysNone(before: map<string, Device>, refs: Refs, after: map<string, Device>, refs': Refs, card: U32,
                      cardDescription: string, cards: map<nat, map<nat, Route>>)
    requires forall c <- cards :: Keyed(cards[c])
    requires ROOT !in before && forall q <- before :: before[q].nodeId < 0x1_0000_0000
    requires CardOutcome(before, refs, after, refs', card, cardDescription, cards)
    ensures StreamsAt(refs, refs', ROOT)
  {
    hide CardOutcome, RoutePath, NodePath;
    forall index: U32 ensures RoutePath(card, DIRECTION_OUTPUT, index) != ROOT &&
        RoutePath(card, DIRECTION_INPUT, index) != ROOT {
      RoutePathIsNotRoot(card, DIRECTION_OUTPUT, index);
      RoutePathIsNotRoot(card, DIRECTION_INPUT, index);
    }
    forall q <- before ensures NodePath(before[q].nodeId) != ROOT {
      NodePathIsNotRoot(before[q].nodeId);
    }
    RefreshKeepsReferences(before, refs, after, refs', card, cardDescription, cards, ROOT);
  }
}
