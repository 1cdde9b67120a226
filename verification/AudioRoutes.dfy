/** Route reports of a card and the exactness of the device table they lead to. */
module AudioRoutes {
  import opened AudioModel
  import opened AudioRefresh
  import opened AudioReferences
  import opened AudioRegistry
  import opened AudioImages
  import opened AudioEvents

  const AVAILABILITY_UNKNOWN: nat := 0

  /** One reported route; a negative card device and empty texts mean "not given". */
  datatype Report = Report(index: nat, direction: nat, cardDevice: int, availability: nat, name: string,
                           description: string)

  predicate InRange(report: Report) {
    report.index < 0x8000_0000 && report.direction < 0x1_0000_0000
  }

  function KeyOf(report: Report): nat {
    RouteKey(report.direction, report.index)
  }

  /** The route's entry after a report: what the report does not give is kept. */
  function Updated(routes: map<nat, Route>, report: Report): Route {
    var known := if KeyOf(report) in routes then routes[KeyOf(report)]
                 else Route(0, DIRECTION_OUTPUT, -1, AVAILABILITY_UNKNOWN, "", "", false);
    Route(report.index, report.direction, if report.cardDevice >= 0 then report.cardDevice else known.cardDevice,
          report.availability, OrElse(report.name, known.name), OrElse(report.description, known.description),
              known.active)
  }

  function Deactivated(routes: map<nat, Route>, direction: nat): map<nat, Route> {
    map k <- routes :: if routes[k].direction == direction then routes[k].(active := false) else routes[k]
  }

  /** The route table after a report; one of the current route makes it the only active one of its direction. */
  function Reported(routes: map<nat, Route>, report: Report, current: bool): map<nat, Route> {
    var updated := routes[KeyOf(report) := Updated(routes, report)];
    if current
      then Deactivated(updated, report.direction)[KeyOf(report) := Updated(routes, report).(active := true)]
      else updated
  }

  lemma ReportedKeyed(routes: map<nat, Route>, report: Report, current: bool)
    requires Keyed(routes) && InRange(report)
    ensures Keyed(Reported(routes, report, current))
    ensures Keyed(routes[KeyOf(report) := Updated(routes, report)])
  {
  }

  /** A reported route has what the report gives and otherwise what was known of it; nothing known means no card device
      and no texts. No other route changes, except that it may cease to be active. */
  lemma ReportedMeans(routes: map<nat, Route>, report: Report, current: bool)
    requires Keyed(routes) && InRange(report)
    ensures var after, k := Reported(routes, report, current), RouteKey(report.direction, report.index);
            after.Keys == routes.Keys + {k} &&
            (forall j <- routes :: j != k ==> after[j] == routes[j].(active := after[j].active)) &&
            var route := after[k];
            var name, description := if k in routes then routes[k].name else "",
                                     if k in routes then routes[k].description else "";
            route.index == report.index && route.direction == report.direction &&
            route.availability == report.availability &&
            TakesOver(route.name, report.name, name) && TakesOver(route.description, report.description, description) &&
            (report.cardDevice >= 0 ==> route.cardDevice == report.cardDevice) &&
            (report.cardDevice < 0 ==> route.cardDevice == if k in routes then routes[k].cardDevice else -1) &&
            (!current ==> route.active == (k in routes && routes[k].active)) &&
            (!current ==> forall j <- routes :: j != k ==> after[j] == routes[j])
  {
  }

  /** After a report of the current route, it is the one active route of its direction, and no route of another
      direction changed. */
  lemma CurrentRouteIsOnlyActive(routes: map<nat, Route>, report: Report)
    requires Keyed(routes) && InRange(report)
    ensures forall k <- Reported(routes, report, true) ::
      var route := Reported(routes, report, true)[k];
      if route.direction == report.direction then route.active <==> route.index == report.index
      else k in routes && route == routes[k]
  {
    ReportedKeyed(routes, report, true);
    var after := Reported(routes, report, true);
    forall k <- after ensures after[k].direction == report.direction && after[k].index == report.index <==>
        k == KeyOf(report) {
    }
  }

  method DeactivateDirection(r: Registry, card: nat, direction: nat)
    requires Healthy(r) && card in r.cards
    modifies r`cards
    ensures Healthy(r) && r.cards == old(r.cards)[card := Deactivated(old(r.cards)[card], direction)]
  {
    hide Healthy;
    RoutesKeyed(r, card);
    var routes := r.cards[card];
    ghost var before := routes;
    var left := routes.Keys;
    while left != {}
      invariant left <= routes.Keys == before.Keys
      invariant forall k <- before ::
        routes[k] == (if k !in left && before[k].direction == direction then before[k].(active := false) else before[k])
      decreases left
    {
      var k :| k in left;
      left := left - {k};
      if routes[k].direction == direction { routes := routes[k := routes[k].(active := false)]; }
    }
    assert routes == Deactivated(before, direction);
    SetRoutes(r, card, routes);
  }

  /** The card is as its routes say in every direction that had a node: exact images, or one fallback per node. */
  ghost predicate CardExact(before: map<string, Device>, after: map<string, Device>, card: U32, cardDescription: string,
                            routes: map<nat, Route>)
    requires Keyed(routes)
  {
    exists nodes :: (IsSnapshot(before, card, nodes) && forall direction | direction == "output" ||
                     direction == "input" ::
      DirectionAsRoutes(after, card, cardDescription, nodes, routes, direction))
  }

  ghost predicate DirectionAsRoutes(after: map<string, Device>, card: U32, cardDescription: string,
                                    nodes: map<nat, Node>, routes: map<nat, Route>, direction: string)
    requires Keyed(routes)
  {
    var ns, rs := DirectionNodes(nodes, direction), DirectionRoutes(routes, DirectionId(direction));
    ns != [] ==> SmallIndexes(rs) && DirectionExact(after, card, cardDescription, ns, rs, direction)
  }

  /** In each direction with a node, every route has its device, field by field, exactly when it should, and every node
      has its own device when there is no route. */
  ghost predicate CardShown(before: map<string, Device>, after: map<string, Device>, card: U32, cardDescription: string,
                            routes: map<nat, Route>)
    requires Keyed(routes)
  {
    exists nodes :: (IsSnapshot(before, card, nodes) && forall direction | direction == "output" ||
                     direction == "input" ::
      DirectionShownAs(after, card, cardDescription, nodes, routes, direction))
  }

  ghost predicate DirectionShownAs(after: map<string, Device>, card: U32, cardDescription: string,
                                   nodes: map<nat, Node>, routes: map<nat, Route>, direction: string)
    requires Keyed(routes)
  {
    (exists n <- nodes :: nodes[n].direction == direction) ==>
      (forall k <- routes :: routes[k].direction == DirectionId(direction) ==>
         RouteShown(after, card, cardDescription, nodes, routes, direction, routes[k])) &&
      ((forall k <- routes :: routes[k].direction != DirectionId(direction)) ==>
         forall n <- nodes :: nodes[n].direction == direction ==> NodeShown(after, card, nodes[n], direction))
  }

  /** What exactness of a card means for each device. */
  lemma CardExactShown(before: map<string, Device>, after: map<string, Device>, card: U32, cardDescription: string,
                       routes: map<nat, Route>)
    requires Keyed(routes) && CardExact(before, after, card, cardDescription, routes)
    requires forall p <- before :: before[p].nodeId < 0x1_0000_0000
    ensures CardShown(before, after, card, cardDescription, routes)
  {
    hide DirectionExact, DirectionNodes, DirectionRoutes, Keyed, RouteShown, NodeShown, SnapshotOf, DirectionShownAs,
         DirectionAsRoutes;
    var nodes :| IsSnapshot(before, card, nodes) && forall direction | direction == "output" || direction == "input" ::
      DirectionAsRoutes(after, card, cardDescription, nodes, routes, direction);
    SnapshotNodesInRange(before, card, nodes);
    forall direction | direction == "output" || direction == "input"
      ensures DirectionShownAs(after, card, cardDescription, nodes, routes, direction)
    {
      DirectionShownExactly(after, card, cardDescription, nodes, routes, direction);
    }
  }

  lemma DirectionShownExactly(after: map<string, Device>, card: U32, cardDescription: string, nodes: map<nat, Node>,
                              routes: map<nat, Route>, direction: string)
    requires Keyed(routes) && DirectionAsRoutes(after, card, cardDescription, nodes, routes, direction)
    requires forall n <- nodes :: nodes[n].nodeId == n < 0x1_0000_0000
    ensures DirectionShownAs(after, card, cardDescription, nodes, routes, direction)
  {
    hide DirectionNodes, DirectionRoutes, RouteShown, NodeShown, NodePath, RoutePath, RouteImage, FallbackImage,
         InferredRoute, KeptRoutes;
    var ns, rs := DirectionNodes(nodes, direction), DirectionRoutes(routes, DirectionId(direction));
    NodesAscend(nodes, direction);
    RoutesAscend(routes, direction);
    if n :| n in nodes && nodes[n].direction == direction {
      assert nodes[n] in ns;
      forall k <- routes | routes[k].direction == DirectionId(direction)
        ensures RouteShown(after, card, cardDescription, nodes, routes, direction, routes[k])
      {
        DirectionShown(after, card, cardDescription, nodes, routes, direction, ns, rs, routes[k]);
      }
      forall m <- nodes | nodes[m].direction == direction && rs == []
        ensures NodeShown(after, card, nodes[m], direction)
      {
        assert nodes[m] in ns;
        FallbackShown(after, card, direction, nodes[m]);
      }
      if rs != [] { assert rs[0] in rs; }
    }
  }

  /** Every refresh of a bound card whose low 31 bits are not all zero is exact. */
  lemma OutcomeExact(before: map<string, Device>, refs: Refs, after: map<string, Device>, refs': Refs, card: U32,
                     cardDescription: string, cards: map<nat, map<nat, Route>>)
    requires card % 0x8000_0000 != 0 && card in cards && forall c <- cards :: Keyed(cards[c])
    requires forall p <- before :: before[p].nodeId < 0x1_0000_0000
    requires CardOutcome(before, refs, after, refs', card, cardDescription, cards)
    ensures CardExact(before, after, card, cardDescription, cards[card])
    ensures CardShown(before, after, card, cardDescription, cards[card])
  {
    hide CardRefreshed, CardSettled, DirectionNodes, DirectionRoutes, DirectionExact, Keyed, CardShown;
    var nodes :| IsSnapshot(before, card, nodes) &&
        CardRefreshed(before, after, card, cardDescription, nodes, cards[card]);
    CardRefreshedExact(before, after, card, cardDescription, nodes, cards[card]);
    forall direction | direction == "output" || direction == "input"
      ensures DirectionAsRoutes(after, card, cardDescription, nodes, cards[card], direction)
    {
    }
    CardExactShown(before, after, card, cardDescription, cards[card]);
  }

  /** What exactness means for a node whose devices on the card all had one direction, in terms of the table alone:
      the card's route devices of that direction are at the paths of its routes, every route that is active or not
      unavailable has its device there, and the node has its own device exactly when there is no route. Whatever the
      directions, each device shows its route, and the node the route belongs to, field by field. */
  lemma CardExactMeans(before: map<string, Device>, after: map<string, Device>, card: U32, cardDescription: string,
                       routes: map<nat, Route>, node: nat, direction: string)
    requires Keyed(routes) && CardExact(before, after, card, cardDescription, routes)
    requires forall p <- before :: before[p].nodeId < 0x1_0000_0000
    requires direction == "output" || direction == "input"
    requires OnCard(before, before.Keys, card, node) != {}
    requires forall p <- before :: before[p].cardId == card && before[p].nodeId == node ==>
      before[p].direction == direction
    ensures forall p <- after :: IsCardRoute(after[p], card, direction) ==>
              exists k <- routes :: routes[k].direction == DirectionId(direction) &&
                                    p == RoutePath(card, DirectionId(direction), routes[k].index)
    ensures forall k <- routes :: (var route := routes[k];
              route.direction == DirectionId(direction) && (route.active || route.availability != AVAILABILITY_NO) ==>
                var p := RoutePath(card, DirectionId(direction), route.index);
                p in after && IsCardRoute(after[p], card, direction) && after[p].routeIndex == route.index &&
                after[p].available == (route.availability != AVAILABILITY_NO) &&
                    (route.active ==> after[p].routeActive))
    ensures NodePath(node) in after <==> forall k <- routes :: routes[k].direction != DirectionId(direction)
    ensures CardShown(before, after, card, cardDescription, routes)
  {
    hide CardShown, RoutePath, NodePath, InferredRoute, RouteDisplayName, FallbackName, FallbackImage, OrElse,
         SnapshotOf, SelectedNode, DirectionNodes, DirectionRoutes, MatchesSelectedNode, AddFallbacks, AddImages;
    CardExactShown(before, after, card, cardDescription, routes);
    var nodes :| IsSnapshot(before, card, nodes) && forall d | d == "output" || d == "input" ::
      DirectionAsRoutes(after, card, cardDescription, nodes, routes, d);
    SnapshotNodesInRange(before, card, nodes);
    NodeHasDirection(before, card, nodes, node, direction);
    assert DirectionAsRoutes(after, card, cardDescription, nodes, routes, direction);
    var ns, rs := DirectionNodes(nodes, direction), DirectionRoutes(routes, DirectionId(direction));
    RoutesInOrder(routes, DirectionId(direction));
    assert nodes[node] in ns;
    var inferred := InferredRoute(ns, rs);
    forall k <- routes | routes[k].direction == DirectionId(direction) ensures routes[k] in rs {
    }
    if rs != [] {
      assert rs[0] in rs;
    }
  }

  /** A route report that names its index: the table entry is updated and the card's devices are refreshed. */
  method HandleDeviceRouteParam(r: Registry, card: U32, report: Report, current: bool)
    requires Healthy(r) && InRange(report)
    modifies r`devices, r`pathsByNode, r`streams, r`activeInput, r`activeOutput, r`pendingInput, r`pendingOutput,
        r`cards
    ensures Healthy(r)
    ensures card !in old(r.cards) ==> unchanged(r)
    ensures card in old(r.cards) ==>
      r.cards == old(r.cards)[card := Reported(old(r.cards)[card], report, current)] &&
      CardOutcome(old(r.devices), old(r.References()), r.devices, r.References(), card, old(r.DescriptionOf(card)),
                  r.cards) &&
      (card % 0x8000_0000 != 0 ==>
         CardExact(old(r.devices), r.devices, card, old(r.DescriptionOf(card)), r.cards[card]) &&
         CardShown(old(r.devices), r.devices, card, old(r.DescriptionOf(card)), r.cards[card]))
  {
    hide IndexAgrees, StreamsLive, EntryAgrees, StreamIndexAgrees, CardOutcome, CardExact, CardShown, Keyed, Updated,
         Deactivated;
    if card !in r.cards { return; }
    UpdateRoute(r, card, report, current);
    r.RefreshLogicalDevicesForRouteDevice(card);
    RetargetedAgrees(old(r.streams), r.streams, r.streamPathsByNode);
    if card % 0x8000_0000 != 0 {
      OutcomeExact(old(r.devices), old(r.References()), r.devices, r.References(), card, old(r.DescriptionOf(card)),
                   r.cards);
    }
  }

  method UpdateRoute(r: Registry, card: nat, report: Report, current: bool)
    requires Healthy(r) && InRange(report) && card in r.cards
    modifies r`cards
    ensures Healthy(r) && r.cards == old(r.cards)[card := Reported(old(r.cards)[card], report, current)]
  {
    hide Healthy, Keyed, Updated, Deactivated, KeyOf;
    var routes := r.cards[card];
    RoutesKeyed(r, card);
    ReportedKeyed(routes, report, current);
    var route := Updated(routes, report);
    SetRoutes(r, card, routes[KeyOf(report) := route]);
    if current {
      DeactivateDirection(r, card, report.direction);
      SetRoutes(r, card, r.cards[card][KeyOf(report) := route.(active := true)]);
    }
  }

  lemma RoutesKeyed(r: Registry, card: nat)
    requires Healthy(r) && card in r.cards
    ensures Keyed(r.cards[card])
  {
  }

  method SetRoutes(r: Registry, card: nat, routes: map<nat, Route>)
    requires Healthy(r) && card in r.cards && Keyed(routes)
    modifies r`cards
    ensures Healthy(r) && r.cards == old(r.cards)[card := routes]
  {
    hide IndexAgrees, StreamsLive, StreamIndexAgrees, Keyed, Live;
    r.cards := r.cards[card := routes];
  }

  /** A card announces its parameters; its routes will be reported again. */
  method HandleDeviceInfo(r: Registry, card: U32, hasRouteParams: bool)
    requires Healthy(r)
    modifies r`cards, r`routeSupport
    ensures Healthy(r)
    ensures r.cards == if card in old(r.cards) && hasRouteParams then old(r.cards)[card := map[]] else old(r.cards)
    ensures r.routeSupport == if card in r.cards then old(r.routeSupport)[card := hasRouteParams]
                              else old(r.routeSupport)
  {
    hide IndexAgrees, StreamsLive;
    if card !in r.cards { return; }
    r.routeSupport := r.routeSupport[card := hasRouteParams];
    if !hasRouteParams { return; }
    r.cards := r.cards[card := map[]];
  }
}
