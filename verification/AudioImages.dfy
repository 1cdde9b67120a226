/** The devices of a refreshed card, field by field, in terms of its nodes and its reported routes alone. */
module AudioImages {
  import opened Common
  import opened Numerals
  import opened AudioModel
  import opened AudioRefresh
  import opened AudioRegistry

  // ---------- the statements ----------

  /** A node is of the direction and its profile device is the one the route uses. */
  predicate Uses(route: Route, node: Node, direction: string) {
    node.direction == direction && route.cardDevice >= 0 && node.profileDevice == route.cardDevice
  }

  ghost predicate InUse(nodes: map<nat, Node>, route: Route, direction: string) {
    exists n <- nodes :: Uses(route, nodes[n], direction)
  }

  /** The node with the least id whose profile device the route uses, or else the one with the least id. */
  ghost predicate IsRouteNode(nodes: map<nat, Node>, route: Route, direction: string, n: nat) {
    n in nodes && nodes[n].direction == direction &&
    if InUse(nodes, route, direction)
      then Uses(route, nodes[n], direction) && forall m <- nodes :: Uses(route, nodes[m], direction) ==> n <= m
      else forall m <- nodes :: nodes[m].direction == direction ==> n <= m
  }

  /** An available route comes before an unavailable one, and a lower index before a higher one. */
  predicate Before(a: Route, b: Route) {
    if (a.availability == AVAILABILITY_NO) == (b.availability == AVAILABILITY_NO) then a.index <= b.index
    else b.availability == AVAILABILITY_NO
  }

  /** No route of the direction is reported active, and this is the foremost one in use. */
  ghost predicate IsInferred(nodes: map<nat, Node>, routes: map<nat, Route>, direction: string, route: Route) {
    InUse(nodes, route, direction) &&
    forall k <- routes :: routes[k].direction == DirectionId(direction) ==>
      !routes[k].active && (InUse(nodes, routes[k], direction) ==> Before(route, routes[k]))
  }

  /** The text is the first of these that is not empty. */
  predicate FirstGiven(texts: seq<string>, text: string) {
    exists i | 0 <= i < |texts| :: texts[i] == text != "" && forall j | 0 <= j < i :: texts[j] == ""
  }

  ghost predicate Occurs(s: string, part: string) {
    exists front, back :: s == front + part + back
  }

  /** The text, with the card's description behind it unless that is empty or already in it. */
  ghost predicate ShownWith(name: string, text: string, cardDescription: string) {
    name == if cardDescription == "" || Occurs(text, cardDescription) then text else text + " - " + cardDescription
  }

  ghost predicate OfNode(d: Device, card: U32, node: Node, direction: string) {
    d.nodeId == node.nodeId && d.nodeName == node.nodeName && d.serial == node.serial && d.cardId == card &&
    d.direction == direction && FirstGiven([node.kind, "unknown"], d.kind)
  }

  /** The device of a route that belongs to this node. */
  ghost predicate ShowsRoute(d: Device, card: U32, cardDescription: string, node: Node, direction: string,
                             route: Route, inferred: bool) {
    OfNode(d, card, node, direction) && d.isRoute && d.routeIndex == route.index &&
    d.profileDevice == (if route.cardDevice >= 0 then route.cardDevice else node.profileDevice) &&
    (d.routeActive <==> route.active || inferred) && (d.available <==> route.availability != AVAILABILITY_NO) &&
    exists text :: FirstGiven([route.description, route.name, node.fallbackName, "Device " + ToString(node.nodeId)],
                              text) && ShownWith(d.name, text, cardDescription)
  }

  /** A route has its device exactly when it is not unavailable, or active, or inferred active; the device is that of
      the node the route belongs to. */
  ghost predicate RouteShown(after: map<string, Device>, card: U32, cardDescription: string, nodes: map<nat, Node>,
                             routes: map<nat, Route>, direction: string, route: Route)
    requires route.index < 0x8000_0000
  {
    var p := RoutePath(card, DirectionId(direction), route.index);
    var inferred := IsInferred(nodes, routes, direction, route);
    (p in after && IsCardRoute(after[p], card, direction) <==>
       route.availability != AVAILABILITY_NO || route.active || inferred) &&
    (p in after && IsCardRoute(after[p], card, direction) ==>
       p == ChildPath(after[p].id) &&
       exists n | IsRouteNode(nodes, route, direction, n) ::
         ShowsRoute(after[p], card, cardDescription, nodes[n], direction, route, inferred))
  }

  /** A node of a direction without routes has its own device. */
  ghost predicate NodeShown(after: map<string, Device>, card: U32, node: Node, direction: string) {
    var p := NodePath(node.nodeId);
    p in after && OfNode(after[p], card, node, direction) && p == ChildPath(after[p].id) && !after[p].isRoute &&
    after[p].available && after[p].routeActive && after[p].routeIndex == -1 &&
    after[p].profileDevice == node.profileDevice &&
    FirstGiven([node.fallbackName, "Device " + ToString(node.nodeId)], after[p].name)
  }

  // ---------- texts ----------

  lemma OrElseGives(s: string, other: string)
    requires other != ""
    ensures FirstGiven([s, other], OrElse(s, other))
  {
    assert [s, other][if s != "" then 0 else 1] == OrElse(s, other);
  }

  lemma {:induction false} ContainsMeans(s: string, part: string)
    ensures Contains(s, part) <==> Occurs(s, part)
    decreases |s|
  {
    hide Occurs;
    if s != "" { ContainsMeans(s[1..], part); }
    OccursStep(s, part);
  }

  /** A text occurs at the front or later. */
  lemma OccursStep(s: string, part: string)
    ensures Occurs(s, part) <==> (|part| <= |s| && s[..|part|] == part) || (s != "" && Occurs(s[1..], part))
  {
    if |part| <= |s| && s[..|part|] == part {
      assert s == "" + part + s[|part|..];
    }
    if s != "" {
      if front, back :| s[1..] == front + part + back { OccursLater(s[0], front, part, back); }
    }
    if front, back :| s == front + part + back {
      if front == "" { assert s[..|part|] == part; } else { OccursLater(front[0], front[1..], part, back); }
    }
  }

  lemma OccursLater(c: char, front: string, part: string, back: string)
    ensures ([c] + front) + part + back == [c] + (front + part + back)
    ensures ([c] + (front + part + back))[1..] == front + part + back
    ensures Occurs(front + part + back, part) && Occurs([c] + (front + part + back), part)
  {
    assert ([c] + front) + part + back == [c] + (front + part + back);
  }

  lemma NameShown(description: string, name: string, node: Node, cardDescription: string)
    ensures exists text :: FirstGiven([description, name, node.fallbackName, "Device " + ToString(node.nodeId)],
                                      text) &&
                           ShownWith(RouteDisplayName(description, name, FallbackName(node), cardDescription), text,
                                     cardDescription)
  {
    hide Contains, Occurs, ToString;
    var texts := [description, name, node.fallbackName, "Device " + ToString(node.nodeId)];
    var i := if description != "" then 0 else if name != "" then 1 else if node.fallbackName != "" then 2 else 3;
    assert texts[i] != "" && FirstGiven(texts, texts[i]);
    ContainsMeans(texts[i], cardDescription);
    assert ShownWith(RouteDisplayName(description, name, FallbackName(node), cardDescription), texts[i],
                     cardDescription);
  }

  // ---------- the node of a route ----------

  /** The first position that fits, or the first of all. */
  ghost predicate FirstFit(ns: seq<Node>, route: Route, direction: string, i: int) {
    0 <= i < |ns| &&
    if exists j | 0 <= j < |ns| :: Uses(route, ns[j], direction)
      then Uses(route, ns[i], direction) && forall j | 0 <= j < i :: !Uses(route, ns[j], direction)
      else i == 0
  }

  lemma {:induction false} SelectFromAt(ns: seq<Node>, route: Route, default: Node, direction: string)
    requires forall n <- ns :: n.direction == direction
    ensures if exists j | 0 <= j < |ns| :: Uses(route, ns[j], direction)
            then exists i | FirstFit(ns, route, direction, i) :: ns[i] == SelectFrom(ns, route, default)
            else SelectFrom(ns, route, default) == default
    decreases |ns|
  {
    if ns != [] {
      var rest := ns[1..];
      SelectFromAt(rest, route, default, direction);
      assert forall j | 0 <= j < |rest| :: rest[j] == ns[j + 1];
      if Uses(route, ns[0], direction) {
        assert FirstFit(ns, route, direction, 0);
      } else if j :| 0 <= j < |ns| && Uses(route, ns[j], direction) {
        assert Uses(route, rest[j - 1], direction);
        var i :| FirstFit(rest, route, direction, i) && rest[i] == SelectFrom(rest, route, default);
        assert FirstFit(ns, route, direction, i + 1);
      }
    }
  }

  lemma SelectedAt(ns: seq<Node>, route: Route, direction: string)
    requires ns != [] && forall n <- ns :: n.direction == direction
    ensures exists i | FirstFit(ns, route, direction, i) :: ns[i] == SelectedNode(ns, route)
  {
    SelectFromAt(ns, route, ns[0], direction);
    if !exists j | 0 <= j < |ns| :: Uses(route, ns[j], direction) {
      assert FirstFit(ns, route, direction, 0);
    }
  }

  /** A direction's nodes are its nodes of the snapshot by ascending id. */
  ghost predicate ByNodeId(nodes: map<nat, Node>, direction: string, ns: seq<Node>) {
    (forall n :: n in ns <==> n.nodeId in nodes && nodes[n.nodeId] == n && n.direction == direction) &&
    (forall n <- nodes :: nodes[n].nodeId == n) &&
    forall i, j | 0 <= i < j < |ns| :: ns[i].nodeId < ns[j].nodeId
  }

  lemma NodesAscend(nodes: map<nat, Node>, direction: string)
    requires forall n <- nodes :: nodes[n].nodeId == n < 0x1_0000_0000
    ensures ByNodeId(nodes, direction, DirectionNodes(nodes, direction))
  {
    NodesInOrder(nodes, direction);
    var ids := NodeIdsOf(nodes, direction);
    AscendingFacts(ids);
    forall i | 0 <= i < |ids| ensures DirectionNodes(nodes, direction)[i].nodeId == Ascending(ids)[i] {
      assert Ascending(ids)[i] in ids;
    }
  }

  lemma UsedSomewhere(nodes: map<nat, Node>, direction: string, ns: seq<Node>, route: Route)
    requires ByNodeId(nodes, direction, ns)
    ensures InUse(nodes, route, direction) <==> exists j | 0 <= j < |ns| :: Uses(route, ns[j], direction)
    ensures InUse(nodes, route, direction) <==> MatchesSelectedNode(ns, route)
  {
    if n :| n in nodes && Uses(route, nodes[n], direction) {
      assert nodes[n] in ns;
      var j :| 0 <= j < |ns| && ns[j] == nodes[n];
      assert Uses(route, ns[j], direction) && NodeMatches(ns[j], route);
    }
    if j :| 0 <= j < |ns| && (Uses(route, ns[j], direction) || NodeMatches(ns[j], route)) {
      assert ns[j] in ns && Uses(route, nodes[ns[j].nodeId], direction);
    }
  }

  /** The selected node is the one the route belongs to. */
  lemma SelectedIsRouteNode(nodes: map<nat, Node>, direction: string, ns: seq<Node>, route: Route)
    requires ByNodeId(nodes, direction, ns) && ns != []
    ensures var node := SelectedNode(ns, route);
            node.nodeId in nodes && nodes[node.nodeId] == node &&
            IsRouteNode(nodes, route, direction, node.nodeId)
  {
    hide SelectedNode, MatchesSelectedNode;
    SelectedAt(ns, route, direction);
    UsedSomewhere(nodes, direction, ns, route);
    var i :| FirstFit(ns, route, direction, i) && ns[i] == SelectedNode(ns, route);
    assert ns[i] in ns;
    forall m <- nodes | nodes[m].direction == direction ensures exists j | 0 <= j < |ns| :: ns[j] == nodes[m] {
      assert nodes[m] in ns;
    }
  }

  // ---------- the inferred route ----------

  predicate Eligible(ns: seq<Node>, route: Route, availableOnly: bool) {
    !(availableOnly && route.availability == AVAILABILITY_NO) && MatchesSelectedNode(ns, route)
  }

  lemma {:induction false} FirstMatchingAt(ns: seq<Node>, rs: seq<Route>, availableOnly: bool)
    ensures match FirstMatching(ns, rs, availableOnly)
            case None => forall i | 0 <= i < |rs| :: !Eligible(ns, rs[i], availableOnly)
            case Some(x) => exists i | 0 <= i < |rs| && Eligible(ns, rs[i], availableOnly) ::
                x == rs[i].index && forall j | 0 <= j < i :: !Eligible(ns, rs[j], availableOnly)
    decreases |rs|
  {
    hide MatchesSelectedNode;
    if rs != [] && !Eligible(ns, rs[0], availableOnly) {
      var rest := rs[1..];
      FirstMatchingAt(ns, rest, availableOnly);
      assert forall j | 0 <= j < |rest| :: rest[j] == rs[j + 1];
      if FirstMatching(ns, rest, availableOnly).Some? {
        var i :| 0 <= i < |rest| && Eligible(ns, rest[i], availableOnly) &&
            FirstMatching(ns, rest, availableOnly).value == rest[i].index &&
            forall j | 0 <= j < i :: !Eligible(ns, rest[j], availableOnly);
        assert Eligible(ns, rs[i + 1], availableOnly);
      }
    }
  }

  /** A direction's routes are its reported routes by ascending index. */
  ghost predicate ByIndex(routes: map<nat, Route>, direction: string, rs: seq<Route>) {
    (forall r :: r in rs <==> exists k <- routes :: routes[k] == r && r.direction == DirectionId(direction)) &&
    forall i, j | 0 <= i < j < |rs| :: rs[i].index < rs[j].index
  }

  lemma RoutesAscend(routes: map<nat, Route>, direction: string)
    requires Keyed(routes)
    ensures ByIndex(routes, direction, DirectionRoutes(routes, DirectionId(direction)))
  {
    RoutesInOrder(routes, DirectionId(direction));
    var indexes := RouteIndexes(routes, DirectionId(direction));
    AscendingFacts(indexes);
    forall i | 0 <= i < |indexes|
      ensures DirectionRoutes(routes, DirectionId(direction))[i].index == Ascending(indexes)[i]
    {
      assert Ascending(indexes)[i] in indexes;
    }
  }

  ghost predicate Foremost(ns: seq<Node>, rs: seq<Route>, route: Route) {
    route in rs && MatchesSelectedNode(ns, route) &&
    forall r <- rs :: !r.active && (MatchesSelectedNode(ns, r) ==> Before(route, r))
  }

  lemma InferredAt(ns: seq<Node>, rs: seq<Route>, route: Route)
    requires route in rs && forall i, j | 0 <= i < j < |rs| :: rs[i].index < rs[j].index
    ensures InferredRoute(ns, rs) == Some(route.index) <==> Foremost(ns, rs, route)
  {
    hide MatchesSelectedNode;
    FirstMatchingAt(ns, rs, true);
    FirstMatchingAt(ns, rs, false);
    var at :| 0 <= at < |rs| && rs[at] == route;
    if i :| 0 <= i < |rs| && rs[i].active {
      assert rs[i] in rs;
    } else {
      forall i | 0 <= i < |rs|
        ensures Eligible(ns, rs[i], false) <==> MatchesSelectedNode(ns, rs[i])
        ensures rs[i] in rs
      {
      }
    }
  }

  lemma InferredExactly(nodes: map<nat, Node>, routes: map<nat, Route>, direction: string, ns: seq<Node>,
                        rs: seq<Route>, route: Route)
    requires ByNodeId(nodes, direction, ns) && ByIndex(routes, direction, rs) && route in rs
    ensures InferredRoute(ns, rs) == Some(route.index) <==> IsInferred(nodes, routes, direction, route)
  {
    hide MatchesSelectedNode, InUse, InferredRoute, ByNodeId;
    InferredAt(ns, rs, route);
    forall r ensures InUse(nodes, r, direction) <==> MatchesSelectedNode(ns, r) {
      UsedSomewhere(nodes, direction, ns, r);
    }
    forall k <- routes | routes[k].direction == DirectionId(direction) ensures routes[k] in rs {
    }
  }

  // ---------- a refreshed direction ----------

  lemma ImageShows(card: U32, cardDescription: string, ns: seq<Node>, inferred: Option<nat>, direction: string,
                   route: Route)
    requires ns != [] && route.index < 0x8000_0000
    ensures var d := RouteImage(card, cardDescription, ns, inferred, direction, route);
            ShowsRoute(d, card, cardDescription, SelectedNode(ns, route), direction, route,
                       inferred == Some(route.index)) &&
            RoutePath(card, DirectionId(direction), route.index) == ChildPath(d.id)
  {
    hide SelectedNode, RouteDisplayName, FirstGiven, ShownWith, ToString, RouteId;
    NameShown(route.description, route.name, SelectedNode(ns, route), cardDescription);
    OrElseGives(SelectedNode(ns, route).kind, "unknown");
  }

  lemma FallbackShown(after: map<string, Device>, card: U32, direction: string, node: Node)
    requires node.direction == direction && NodePath(node.nodeId) in after
    requires after[NodePath(node.nodeId)] == FallbackImage(card, direction, node)
    ensures NodeShown(after, card, node, direction)
  {
    hide ToString, FirstGiven;
    OrElseGives(node.kind, "unknown");
    OrElseGives(node.fallbackName, "Device " + ToString(node.nodeId));
  }

  /** What exactness of a direction means for each of its routes. */
  lemma DirectionShown(after: map<string, Device>, card: U32, cardDescription: string, nodes: map<nat, Node>,
                       routes: map<nat, Route>, direction: string, ns: seq<Node>, rs: seq<Route>, route: Route)
    requires ByNodeId(nodes, direction, ns) && ByIndex(routes, direction, rs) && ns != [] && SmallIndexes(rs)
    requires DirectionExact(after, card, cardDescription, ns, rs, direction) && route in rs
    ensures RouteShown(after, card, cardDescription, nodes, routes, direction, route)
  {
    hide RoutePath, NodePath, ShowsRoute, RouteImage, InferredRoute, SelectedNode, ByNodeId, ByIndex, IsInferred,
         IsRouteNode, FallbackImage;
    var inferred := InferredRoute(ns, rs);
    var kept := KeptRoutes(rs, inferred);
    InferredExactly(nodes, routes, direction, ns, rs, route);
    SelectedIsRouteNode(nodes, direction, ns, route);
    ImageShows(card, cardDescription, ns, inferred, direction, route);
    var p := RoutePath(card, DirectionId(direction), route.index);
    if p in ImagePaths(card, direction, kept) {
      var r :| r in kept && p == RoutePath(card, DirectionId(direction), r.index);
      RoutePathsDiffer(card, direction, r.index, direction, route.index);
      SameIndex(routes, direction, rs, r, route);
    }
  }

  lemma SameIndex(routes: map<nat, Route>, direction: string, rs: seq<Route>, a: Route, b: Route)
    requires ByIndex(routes, direction, rs) && a in rs && b in rs && a.index == b.index
    ensures a == b
  {
  }
}
