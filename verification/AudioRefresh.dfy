/** What a refresh of a card leaves in the device table: in each direction exactly the images of the kept routes,
    or one fallback device per node, and nothing outside the card is touched. */
module AudioRefresh {
  import opened Common
  import opened AudioModel

  ghost predicate DistinctIndexes(routes: seq<Route>) {
    forall i, j | 0 <= i < j < |routes| :: routes[i].index != routes[j].index
  }

  ghost predicate SmallIndexes(routes: seq<Route>) {
    forall r <- routes :: r.index < 0x8000_0000
  }

  ghost predicate NodesInRange(nodes: seq<Node>) {
    (forall n <- nodes :: n.nodeId < 0x1_0000_0000) &&
    forall i, j | 0 <= i < j < |nodes| :: nodes[i].nodeId != nodes[j].nodeId
  }

  /** The devices of the card in one direction are as the routes say. */
  ghost predicate DirectionExact(devices: map<string, Device>, card: U32, cardDescription: string, nodes: seq<Node>,
                                 routes: seq<Route>, direction: string)
    requires nodes != [] && SmallIndexes(routes)
  {
    var inferred := InferredRoute(nodes, routes);
    var kept := KeptRoutes(routes, inferred);
    (forall p <- devices :: IsCardRoute(devices[p], card, direction) <==> p in ImagePaths(card, direction, kept)) &&
    (forall r <- kept :: RoutePath(card, DirectionId(direction), r.index) in devices &&
       devices[RoutePath(card, DirectionId(direction), r.index)] ==
         RouteImage(card, cardDescription, nodes, inferred, direction, r)) &&
    (forall n <- nodes :: if routes == [] then NodePath(n.nodeId) in devices &&
                                               devices[NodePath(n.nodeId)] == FallbackImage(card, direction, n)
                          else NodePath(n.nodeId) !in devices)
  }

  // ---------- the two folds ----------

  lemma RoutePathsDiffer(card: U32, d1: string, i1: U32, d2: string, i2: U32)
    ensures RoutePath(card, DirectionId(d1), i1) == RoutePath(card, DirectionId(d2), i2) <==>
            DirectionId(d1) == DirectionId(d2) && i1 == i2
  {
    hide RouteId, ChildPath;
    PathsInjective(RouteId(card, DirectionId(d1), i1), RouteId(card, DirectionId(d2), i2));
    RouteIdInjectiveExactly(card, DirectionId(d1), i1, card, DirectionId(d2), i2);
  }

  /** A card whose low 31 bits are not all zero never produces a route path that is a node's path. */
  lemma RouteAvoidsNode(card: U32, direction: string, index: U32, node: nat)
    requires card % 0x8000_0000 != 0 && node < 0x1_0000_0000
    ensures RoutePath(card, DirectionId(direction), index) != NodePath(node)
  {
    PathsInjective(RouteId(card, DirectionId(direction), index), node);
    RouteIdsAvoidNodesExactly(card, DirectionId(direction));
    assert !IsNodeId(RouteId(card, DirectionId(direction), index));
  }

  lemma {:induction false} ImagesAdded(devices: map<string, Device>, card: U32, cardDescription: string,
                                       nodes: seq<Node>, inferred: Option<nat>, direction: string, kept: seq<Route>)
    requires nodes != [] && SmallIndexes(kept) && DistinctIndexes(kept)
    ensures var added := AddImages(devices, card, cardDescription, nodes, inferred, direction, kept);
            added.Keys == devices.Keys + ImagePaths(card, direction, kept) &&
            (forall p <- devices :: p !in ImagePaths(card, direction, kept) ==> added[p] == devices[p]) &&
            (forall r <- kept :: added[RoutePath(card, DirectionId(direction), r.index)] ==
               RouteImage(card, cardDescription, nodes, inferred, direction, r))
    decreases |kept|
  {
    hide RoutePath, RouteImage, ImagePaths;
    NoImagePaths(card, direction);
    if kept != [] {
      var init, last := kept[..|kept| - 1], kept[|kept| - 1];
      ImagesAdded(devices, card, cardDescription, nodes, inferred, direction, init);
      ImagePathsSplit(card, direction, init, last);
      assert kept == init + [last];
      forall r <- init ensures RoutePath(card, DirectionId(direction), r.index) != RoutePath(card,
          DirectionId(direction), last.index) {
        RoutePathsDiffer(card, direction, r.index, direction, last.index);
      }
    }
  }

  lemma {:induction false} FallbacksAdded(devices: map<string, Device>, card: nat, direction: string, nodes: seq<Node>)
    requires NodesInRange(nodes)
    ensures var added := AddFallbacks(devices, card, direction, nodes);
            added.Keys == devices.Keys + FallbackPaths(nodes) &&
            (forall p <- devices :: p !in FallbackPaths(nodes) ==> added[p] == devices[p]) &&
            (forall n <- nodes :: added[NodePath(n.nodeId)] == FallbackImage(card, direction, n))
    decreases |nodes|
  {
    hide NodePath, FallbackImage, FallbackPaths;
    NoFallbackPaths();
    if nodes != [] {
      var init, last := nodes[..|nodes| - 1], nodes[|nodes| - 1];
      FallbacksAdded(devices, card, direction, init);
      FallbackPathsSplit(init, last);
      assert nodes == init + [last];
      forall n <- init ensures NodePath(n.nodeId) != NodePath(last.nodeId) {
        NodePathsDiffer(n.nodeId, last.nodeId);
      }
    }
  }

  lemma ImagePathsSplit(card: U32, direction: string, init: seq<Route>, last: Route)
    requires SmallIndexes(init + [last]) && SmallIndexes(init) && last.index < 0x8000_0000
    ensures ImagePaths(card, direction, init + [last]) ==
            ImagePaths(card, direction, init) + {RoutePath(card, DirectionId(direction), last.index)}
    ensures forall r <- init :: RoutePath(card, DirectionId(direction), r.index) in ImagePaths(card, direction, init)
  {
    hide RoutePath;
  }

  lemma NoImagePaths(card: U32, direction: string)
    ensures ImagePaths(card, direction, []) == {}
  {
  }

  lemma FallbackPathsSplit(init: seq<Node>, last: Node)
    ensures FallbackPaths(init + [last]) == FallbackPaths(init) + {NodePath(last.nodeId)}
    ensures forall n <- init :: NodePath(n.nodeId) in FallbackPaths(init)
  {
    hide NodePath;
  }

  lemma NoFallbackPaths()
    ensures FallbackPaths([]) == {}
  {
  }

  lemma NodePathsDiffer(a: nat, b: nat)
    ensures NodePath(a) == NodePath(b) <==> a == b
  {
    PathsInjective(a, b);
  }

  // ---------- one direction ----------

  lemma {:induction false} KeptDistinct(routes: seq<Route>, inferred: Option<nat>)
    requires DistinctIndexes(routes)
    ensures DistinctIndexes(KeptRoutes(routes, inferred))
    decreases |routes|
  {
    if routes != [] {
      KeptDistinct(routes[1..], inferred);
      var rest := KeptRoutes(routes[1..], inferred);
      forall r <- rest ensures r.index != routes[0].index {
        var j :| 0 <= j < |routes[1..]| && routes[1..][j] == r;
        assert routes[j + 1] == r;
      }
    }
  }

  lemma RefreshMakesExact(devices: map<string, Device>, card: U32, cardDescription: string, nodes: seq<Node>,
                          routes: seq<Route>, direction: string)
    requires card % 0x8000_0000 != 0 && nodes != [] && NodesInRange(nodes)
    requires SmallIndexes(routes) && DistinctIndexes(routes)
    ensures DirectionExact(RefreshedDirection(devices, card, cardDescription, nodes, routes, direction),
                           card, cardDescription, nodes, routes, direction)
  {
    if routes == [] {
      NoRouteMakesExact(devices, card, cardDescription, nodes, direction);
    } else {
      RoutesMakeExact(devices, card, cardDescription, nodes, routes, direction);
    }
  }

  lemma NoRouteMakesExact(devices: map<string, Device>, card: U32, cardDescription: string, nodes: seq<Node>,
                          direction: string)
    requires nodes != [] && NodesInRange(nodes)
    ensures DirectionExact(RefreshedDirection(devices, card, cardDescription, nodes, [], direction),
                           card, cardDescription, nodes, [], direction)
  {
    hide RoutePath, NodePath, RouteImage, FallbackImage, InferredRoute, AddImages, AddFallbacks, KeptRoutes;
    FallbacksAdded(devices - Stale(devices, card, direction, {}), card, direction, nodes);
    FallbackKinds(card, direction, nodes);
    KeptNone(InferredRoute(nodes, []));
  }

  lemma RoutesMakeExact(devices: map<string, Device>, card: U32, cardDescription: string, nodes: seq<Node>,
                        routes: seq<Route>, direction: string)
    requires card % 0x8000_0000 != 0 && nodes != [] && NodesInRange(nodes)
    requires routes != [] && SmallIndexes(routes) && DistinctIndexes(routes)
    ensures DirectionExact(RefreshedDirection(devices, card, cardDescription, nodes, routes, direction),
                           card, cardDescription, nodes, routes, direction)
  {
    hide RoutePath, NodePath, RouteImage, FallbackImage, InferredRoute, AddImages, AddFallbacks, KeptRoutes;
    var inferred := InferredRoute(nodes, routes);
    var kept := KeptRoutes(routes, inferred);
    KeptDistinct(routes, inferred);
    ImagesAdded(devices, card, cardDescription, nodes, inferred, direction, kept);
    ImageKinds(card, cardDescription, nodes, inferred, direction, kept);
    forall r <- kept, n <- nodes ensures RoutePath(card, DirectionId(direction), r.index) != NodePath(n.nodeId) {
      RouteAvoidsNode(card, direction, r.index, n.nodeId);
    }
  }

  lemma KeptNone(inferred: Option<nat>)
    ensures KeptRoutes([], inferred) == []
  {
  }

  lemma FallbackKinds(card: nat, direction: string, nodes: seq<Node>)
    ensures forall n <- nodes :: !FallbackImage(card, direction, n).isRoute
  {
  }

  lemma ImageKinds(card: U32, cardDescription: string, nodes: seq<Node>, inferred: Option<nat>, direction: string,
                   kept: seq<Route>)
    requires nodes != [] && SmallIndexes(kept)
    ensures forall r <- kept ::
        IsCardRoute(RouteImage(card, cardDescription, nodes, inferred, direction, r), card, direction)
  {
  }

  /** A device that is neither a route device of the card in this direction, nor at one of its route paths, nor at the
      path of one of the nodes, stays as it is, present or absent. */
  lemma RefreshLeaves(devices: map<string, Device>, card: U32, cardDescription: string, nodes: seq<Node>,
                      routes: seq<Route>, direction: string, p: string)
    requires NodesInRange(nodes) && SmallIndexes(routes) && DistinctIndexes(routes)
    requires forall index: U32 :: p != RoutePath(card, DirectionId(direction), index)
    requires p !in FallbackPaths(nodes)
    requires p in devices ==> !IsCardRoute(devices[p], card, direction)
    ensures var after := RefreshedDirection(devices, card, cardDescription, nodes, routes, direction);
            (p in after <==> p in devices) && (p in devices ==> after[p] == devices[p])
  {
    hide RoutePath, NodePath, RouteImage, FallbackImage, InferredRoute, AddImages, AddFallbacks, KeptRoutes;
    if nodes != [] {
      var inferred := InferredRoute(nodes, routes);
      var kept := KeptRoutes(routes, inferred);
      KeptDistinct(routes, inferred);
      FallbacksAdded(devices - Stale(devices, card, direction, {}), card, direction, nodes);
      ImagesAdded(devices, card, cardDescription, nodes, inferred, direction, kept);
    }
  }

  // ---------- both directions ----------

  /** The table after refreshing output and then input. */
  function RefreshedCard(devices: map<string, Device>, card: U32, cardDescription: string,
                         outputs: seq<Node>, outputRoutes: seq<Route>, inputs: seq<Node>, inputRoutes: seq<Route>)
    : map<string, Device>
    requires (forall r <- outputRoutes :: r.index < 0x8000_0000) && (forall r <- inputRoutes :: r.index < 0x8000_0000)
  {
    RefreshedDirection(
      RefreshedDirection(devices, card, cardDescription, outputs, outputRoutes, "output"),
      card, cardDescription, inputs, inputRoutes, "input")
  }

  lemma InputKeepsOutput(devices: map<string, Device>, card: U32, cardDescription: string, outputs: seq<Node>,
                         outputRoutes: seq<Route>, inputs: seq<Node>, inputRoutes: seq<Route>)
    requires card % 0x8000_0000 != 0 && outputs != [] && NodesInRange(outputs + inputs)
    requires NodesInRange(inputs) && SmallIndexes(outputRoutes) && SmallIndexes(inputRoutes)
    requires DistinctIndexes(outputRoutes) && DistinctIndexes(inputRoutes)
    requires DirectionExact(devices, card, cardDescription, outputs, outputRoutes, "output")
    ensures DirectionExact(RefreshedDirection(devices, card, cardDescription, inputs, inputRoutes, "input"),
                           card, cardDescription, outputs, outputRoutes, "output")
  {
    hide RoutePath, NodePath, RouteImage, FallbackImage, InferredRoute, RefreshedDirection, KeptRoutes;
    var after := RefreshedDirection(devices, card, cardDescription, inputs, inputRoutes, "input");
    var inferred := InferredRoute(outputs, outputRoutes);
    var kept := KeptRoutes(outputRoutes, inferred);
    ImageKinds(card, cardDescription, outputs, inferred, "output", kept);
    FallbackKinds(card, "output", outputs);
    forall r <- kept
      ensures var p := RoutePath(card, DirectionId("output"), r.index); p in after && after[p] == devices[p]
    {
      var p := RoutePath(card, DirectionId("output"), r.index);
      forall index: U32 ensures p != RoutePath(card, DirectionId("input"), index) {
        RoutePathsDiffer(card, "output", r.index, "input", index);
      }
      forall n <- inputs ensures p != NodePath(n.nodeId) {
        assert n in outputs + inputs;
        RouteAvoidsNode(card, "output", r.index, n.nodeId);
      }
      RefreshLeaves(devices, card, cardDescription, inputs, inputRoutes, "input", p);
    }
    forall n <- outputs
      ensures var p := NodePath(n.nodeId);
              (p in after <==> p in devices) && (p in devices && outputRoutes == [] ==> after[p] == devices[p])
    {
      OutputNodeKept(devices, card, cardDescription, outputs, outputRoutes, inputs, inputRoutes, n);
    }
    forall p <- after | IsCardRoute(after[p], card, "output") ensures p in devices && after[p] == devices[p] {
      OutputRouteOld(devices, card, cardDescription, inputs, inputRoutes, p);
    }
  }

  lemma OutputNodeKept(devices: map<string, Device>, card: U32, cardDescription: string, outputs: seq<Node>,
                       outputRoutes: seq<Route>, inputs: seq<Node>, inputRoutes: seq<Route>, n: Node)
    requires card % 0x8000_0000 != 0 && n in outputs && NodesInRange(outputs + inputs) && NodesInRange(inputs)
    requires SmallIndexes(outputRoutes) && SmallIndexes(inputRoutes) && DistinctIndexes(inputRoutes)
    requires DirectionExact(devices, card, cardDescription, outputs, outputRoutes, "output")
    ensures var p, after := NodePath(n.nodeId),
        RefreshedDirection(devices, card, cardDescription, inputs, inputRoutes, "input");
            (p in after <==> p in devices) && (p in devices ==> after[p] == devices[p])
  {
    hide RoutePath, NodePath, RouteImage, InferredRoute, RefreshedDirection, KeptRoutes;
    var p := NodePath(n.nodeId);
    assert n in outputs + inputs;
    forall index: U32 ensures p != RoutePath(card, DirectionId("input"), index) {
      RouteAvoidsNode(card, "input", index, n.nodeId);
    }
    forall m <- inputs ensures p != NodePath(m.nodeId) {
      var i :| 0 <= i < |outputs| && outputs[i] == n;
      var j :| 0 <= j < |inputs| && inputs[j] == m;
      assert (outputs + inputs)[i] == n && (outputs + inputs)[|outputs| + j] == m;
      NodePathsDiffer(n.nodeId, m.nodeId);
    }
    RefreshLeaves(devices, card, cardDescription, inputs, inputRoutes, "input", p);
  }

  /** Refreshing input creates no output route device. */
  lemma OutputRouteOld(devices: map<string, Device>, card: U32, cardDescription: string, inputs: seq<Node>,
                       inputRoutes: seq<Route>, p: string)
    requires NodesInRange(inputs) && SmallIndexes(inputRoutes) && DistinctIndexes(inputRoutes)
    requires var after := RefreshedDirection(devices, card, cardDescription, inputs, inputRoutes, "input");
             p in after && IsCardRoute(after[p], card, "output")
    ensures p in devices && RefreshedDirection(devices, card, cardDescription, inputs, inputRoutes, "input")[p] ==
        devices[p]
  {
    hide RoutePath, NodePath, RouteImage, FallbackImage, InferredRoute, AddImages, AddFallbacks, KeptRoutes;
    if inputs != [] {
      var inferred := InferredRoute(inputs, inputRoutes);
      var kept := KeptRoutes(inputRoutes, inferred);
      KeptDistinct(inputRoutes, inferred);
      FallbacksAdded(devices - Stale(devices, card, "input", {}), card, "input", inputs);
      ImagesAdded(devices, card, cardDescription, inputs, inferred, "input", kept);
      ImageKinds(card, cardDescription, inputs, inferred, "input", kept);
      FallbackKinds(card, "input", inputs);
    }
  }

  ghost predicate Refreshable(outputs: seq<Node>, outputRoutes: seq<Route>, inputs: seq<Node>,
                              inputRoutes: seq<Route>) {
    NodesInRange(outputs + inputs) && NodesInRange(outputs) && NodesInRange(inputs) &&
    SmallIndexes(outputRoutes) && SmallIndexes(inputRoutes) &&
    DistinctIndexes(outputRoutes) && DistinctIndexes(inputRoutes)
  }

  /** After the refresh every direction with a node has exactly the route devices its routes call for and no fallback,
      or, without routes, one fallback per node and no route device. */
  ghost predicate RefreshIsExact(devices: map<string, Device>, card: U32, cardDescription: string, outputs: seq<Node>,
                                 outputRoutes: seq<Route>, inputs: seq<Node>, inputRoutes: seq<Route>)
    requires SmallIndexes(outputRoutes) && SmallIndexes(inputRoutes)
  {
    var after := RefreshedCard(devices, card, cardDescription, outputs, outputRoutes, inputs, inputRoutes);
    (outputs != [] ==> DirectionExact(after, card, cardDescription, outputs, outputRoutes, "output")) &&
    (inputs != [] ==> DirectionExact(after, card, cardDescription, inputs, inputRoutes, "input"))
  }

  lemma RefreshExact(devices: map<string, Device>, card: U32, cardDescription: string, outputs: seq<Node>,
                     outputRoutes: seq<Route>, inputs: seq<Node>, inputRoutes: seq<Route>)
    requires card % 0x8000_0000 != 0 && Refreshable(outputs, outputRoutes, inputs, inputRoutes)
    ensures RefreshIsExact(devices, card, cardDescription, outputs, outputRoutes, inputs, inputRoutes)
  {
    hide RefreshedDirection, DirectionExact;
    var first := RefreshedDirection(devices, card, cardDescription, outputs, outputRoutes, "output");
    if outputs != [] {
      RefreshMakesExact(devices, card, cardDescription, outputs, outputRoutes, "output");
      InputKeepsOutput(first, card, cardDescription, outputs, outputRoutes, inputs, inputRoutes);
    }
    if inputs != [] {
      RefreshMakesExact(first, card, cardDescription, inputs, inputRoutes, "input");
    }
  }

  /** Every refresh of a card is exact exactly when the low 31 bits of the card's id are not all zero. */
  lemma EveryRefreshExactExactly(card: U32)
    ensures (forall devices, cardDescription, outputs, outputRoutes, inputs, inputRoutes |
               Refreshable(outputs, outputRoutes, inputs, inputRoutes) ::
               RefreshIsExact(devices, card, cardDescription, outputs, outputRoutes, inputs, inputRoutes)) <==>
            card % 0x8000_0000 != 0
  {
    hide RefreshIsExact, NodesInRange, DistinctIndexes;
    if card % 0x8000_0000 != 0 {
      forall devices, cardDescription, outputs, outputRoutes, inputs, inputRoutes |
        Refreshable(outputs, outputRoutes, inputs, inputRoutes)
        ensures RefreshIsExact(devices, card, cardDescription, outputs, outputRoutes, inputs, inputRoutes)
      {
        RefreshExact(devices, card, cardDescription, outputs, outputRoutes, inputs, inputRoutes);
      }
    } else {
      CollidingRefresh(card);
    }
  }

  const SHADOWED_NODE := Node(7, "n", "", "input", "source", "Mic", 0)
  const SHADOWING_ROUTE := Route(7, DIRECTION_INPUT, 0, 2, "mic", "", true)

  lemma CollidingRefresh(card: U32)
    requires card % 0x8000_0000 == 0
    ensures Refreshable([], [], [SHADOWED_NODE], [SHADOWING_ROUTE])
    ensures !RefreshIsExact(map[NodePath(7) := FallbackImage(card, "input", SHADOWED_NODE)], card, "", [], [],
                            [SHADOWED_NODE], [SHADOWING_ROUTE])
  {
    hide RefreshedDirection, DirectionExact;
    var before := map[NodePath(7) := FallbackImage(card, "input", SHADOWED_NODE)];
    assert [] + [SHADOWED_NODE] == [SHADOWED_NODE];
    NoOutputs(before, card);
    CollidingCardNotExact(card);
  }

  lemma NoOutputs(devices: map<string, Device>, card: U32)
    ensures RefreshedDirection(devices, card, "", [], [], "output") == devices
  {
  }

  /** For such a card an input route gets the object path of the node with the route's index, so the refresh removes the
      route device it has just created as if it were that node's fallback. */
  lemma CollidingCardNotExact(card: U32)
    requires card % 0x8000_0000 == 0
    ensures var before := map[NodePath(7) := FallbackImage(card, "input", SHADOWED_NODE)];
            RefreshedDirection(before, card, "", [SHADOWED_NODE], [SHADOWING_ROUTE], "input") == map[] &&
            !DirectionExact(map[], card, "", [SHADOWED_NODE], [SHADOWING_ROUTE], "input")
  {
    var node, route := SHADOWED_NODE, SHADOWING_ROUTE;
    var before := map[NodePath(7) := FallbackImage(card, "input", node)];
    ShiftedCard(card);
    assert RouteId(card, DIRECTION_INPUT, 7) == 7;
    assert RoutePath(card, DirectionId("input"), 7) == NodePath(7);
    var inferred := InferredRoute([node], [route]);
    assert KeptRoutes([route][1..], inferred) == [];
    assert KeptRoutes([route], inferred) == [route];
    ImagesAdded(before, card, "", [node], inferred, "input", [route]);
    assert ImagePaths(card, "input", [route]) == {NodePath(7)};
    assert FallbackPaths([node]) == {NodePath(7)};
    assert route in KeptRoutes([route], inferred);
  }
}
