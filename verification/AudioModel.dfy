/** Values of the audio registry: devices, streams, card routes, and the pure parts of its reconciliation. */
module AudioModel {
  import opened Common
  import opened Numerals

  const ROOT := "/"
  const INVALID_ID: nat := 0xFFFF_FFFF
  const AVAILABILITY_NO: nat := 1
  const DIRECTION_INPUT: nat := 0
  const DIRECTION_OUTPUT: nat := 1

  type U32 = x: int | 0 <= x < 0x1_0000_0000

  datatype Device = Device(
    nodeId: nat,
    cardId: nat,
    profileDevice: int,
    routeIndex: int,
    routeActive: bool,
    isRoute: bool,
    nodeName: string,
    serial: string,
    id: string,
    name: string,
    kind: string,
    direction: string,
    available: bool)

  datatype Stream = Stream(nodeId: nat, direction: string, device: string)

  datatype Route = Route(
    index: nat,
    direction: nat,
    cardDevice: int,
    availability: nat,
    name: string,
    description: string,
    active: bool)

  /** What a refresh remembers about one node of the card. */
  datatype Node = Node(
    nodeId: nat,
    nodeName: string,
    serial: string,
    direction: string,
    kind: string,
    fallbackName: string,
    profileDevice: int)

  // ---------- identifiers ----------

  const BASE := "/org/jappeos/Session/AudioService"

  function ChildPath(leaf: string): string {
    BASE + "/Devices/" + leaf
  }

  /** The path of a node's own device. */
  function NodePath(nodeId: nat): string {
    ChildPath(ToString(nodeId))
  }

  /** The 64-bit id of a route device: card shifted by 33 bits, one direction bit, the route index. The fields do
      not overlap, and the shift drops the card's top bit. */
  function RouteId(card: U32, direction: U32, index: U32): nat {
    (card * 0x2_0000_0000) % 0x1_0000_0000_0000_0000 + (direction % 2) * 0x1_0000_0000 + index
  }

  function RoutePath(card: U32, direction: U32, index: U32): string {
    ChildPath(ToString(RouteId(card, direction, index)))
  }

  /** `MakeRouteKey`. */
  function RouteKey(direction: nat, index: nat): nat {
    direction * 0x1_0000_0000 + index
  }

  lemma RouteKeyInjective(d1: U32, i1: U32, d2: U32, i2: U32)
    ensures RouteKey(d1, i1) == RouteKey(d2, i2) <==> d1 == d2 && i1 == i2
  {
  }

  lemma ShiftedCard(card: U32)
    ensures (card * 0x2_0000_0000) % 0x1_0000_0000_0000_0000 == (card % 0x8000_0000) * 0x2_0000_0000
  {
    var q, r := card / 0x8000_0000, card % 0x8000_0000;
    assert card * 0x2_0000_0000 == q * 0x1_0000_0000_0000_0000 + r * 0x2_0000_0000;
  }

  /** Two route ids are equal exactly when direction bit, index and the low 31 bits of the card are. */
  lemma RouteIdInjectiveExactly(c1: U32, d1: U32, i1: U32, c2: U32, d2: U32, i2: U32)
    ensures RouteId(c1, d1, i1) == RouteId(c2, d2, i2) <==>
            c1 % 0x8000_0000 == c2 % 0x8000_0000 && d1 % 2 == d2 % 2 && i1 == i2
  {
    ShiftedCard(c1);
    ShiftedCard(c2);
    var a, b := (d1 % 2) * 0x1_0000_0000 + i1, (d2 % 2) * 0x1_0000_0000 + i2;
    SplitUnique(c1 % 0x8000_0000, a, c2 % 0x8000_0000, b, 0x2_0000_0000);
    SplitUnique(d1 % 2, i1, d2 % 2, i2, 0x1_0000_0000);
  }

  lemma SplitUnique(q1: nat, r1: nat, q2: nat, r2: nat, d: nat)
    requires r1 < d && r2 < d
    ensures q1 * d + r1 == q2 * d + r2 <==> q1 == q2 && r1 == r2
  {
    if q1 < q2 { MoreLaps(q1, q2, d); } else if q2 < q1 { MoreLaps(q2, q1, d); }
  }

  lemma {:induction false} MoreLaps(q1: nat, q2: nat, d: nat)
    requires q1 < q2
    ensures q1 * d + d <= q2 * d
    decreases q2
  {
    assert q2 * d == (q2 - 1) * d + d;
    if q1 < q2 - 1 { MoreLaps(q1, q2 - 1, d); }
  }

  predicate IsNodeId(id: nat) {
    id < 0x1_0000_0000
  }

  /** The ids of a card's routes in one direction avoid every node id exactly when the card's low 31 bits are not
      all zero or the direction is output. */
  lemma RouteIdsAvoidNodesExactly(card: U32, direction: U32)
    ensures (forall index: U32 :: !IsNodeId(RouteId(card, direction, index))) <==>
            card % 0x8000_0000 != 0 || direction % 2 == 1
  {
    ShiftedCard(card);
    if card % 0x8000_0000 == 0 && direction % 2 == 0 {
      assert IsNodeId(RouteId(card, direction, 0));
    }
  }

  lemma PathsInjective(a: nat, b: nat)
    ensures ChildPath(ToString(a)) == ChildPath(ToString(b)) <==> a == b
    ensures ChildPath(ToString(a)) != ROOT
  {
    var n := |BASE + "/Devices/"|;
    assert ChildPath(ToString(a))[n..] == ToString(a) && ChildPath(ToString(b))[n..] == ToString(b);
    ToStringInjective(a, b);
  }

  // ---------- device ranks and matching ----------

  /** Preference among devices of a node: active and available, active, available, neither. */
  function Rank(d: Device): nat {
    if d.routeActive && d.available then 0 else if d.routeActive then 1 else if d.available then 2 else 3
  }

  /** A metadata target names a device by node name, serial, node id or object id. */
  predicate Matches(d: Device, target: string) {
    target != "" &&
    (target == d.nodeName || target == d.serial || target == ToString(d.nodeId) || target == d.id)
  }

  /** A device goes by four names, as far as it has them, and by no other. */
  lemma NamesExactly(d: Device, target: string)
    ensures Matches(d, target) <==> target in {d.nodeName, d.serial, ToString(d.nodeId), d.id} - {""}
  {
  }

  /** Byte order of paths, used to break ties. */
  predicate LexLess(a: string, b: string)
    decreases |a|
  {
    if b == "" then false
    else if a == "" then true
    else a[0] < b[0] || (a[0] == b[0] && LexLess(a[1..], b[1..]))
  }

  lemma {:induction false} LexTransitive(a: string, b: string, c: string)
    requires LexLess(a, b) && LexLess(b, c)
    ensures LexLess(a, c)
    decreases |a|
  {
    if a != "" && a[0] == b[0] == c[0] { LexTransitive(a[1..], b[1..], c[1..]); }
  }

  lemma {:induction false} LexTotal(a: string, b: string)
    ensures a == b || LexLess(a, b) || LexLess(b, a)
    ensures !(LexLess(a, b) && LexLess(b, a)) && !LexLess(a, a)
    decreases |a|
  {
    if a != "" && b != "" {
      LexTotal(a[1..], b[1..]);
      LexTotal(a[1..], a[1..]);
      if a[0] == b[0] && a[1..] == b[1..] { assert a == [a[0]] + a[1..] && b == [b[0]] + b[1..]; }
    } else if a != "" {
      LexTotal(a[1..], a[1..]);
    }
  }

  // ---------- ascending order ----------

  ghost predicate IsLeast(m: nat, keys: set<nat>) {
    m in keys && forall k <- keys :: m <= k
  }

  lemma {:induction false} LeastExists(keys: set<nat>) returns (m: nat)
    requires keys != {}
    ensures IsLeast(m, keys)
    decreases |keys|
  {
    m :| m in keys;
    var rest := keys - {m};
    if rest != {} {
      var k := LeastExists(rest);
      assert forall x <- keys :: x == m || x in rest;
      m := if k < m then k else m;
    } else {
      assert keys == {m};
    }
  }

  /** The keys in ascending order, as `std::sort` leaves them. */
  ghost function Ascending(keys: set<nat>): seq<nat>
    decreases |keys|
  {
    if keys == {} then []
    else
      var m := Least(keys);
      [m] + Ascending(keys - {m})
  }

  ghost function Least(keys: set<nat>): (m: nat)
    requires keys != {}
    ensures IsLeast(m, keys)
  {
    assert exists m :: IsLeast(m, keys) by { var m := LeastExists(keys); assert IsLeast(m, keys); }
    var m :| IsLeast(m, keys);
    m
  }

  lemma {:induction false} AscendingFacts(keys: set<nat>)
    ensures |Ascending(keys)| == |keys| && forall k :: k in Ascending(keys) <==> k in keys
    ensures forall i, j | 0 <= i < j < |keys| :: Ascending(keys)[i] < Ascending(keys)[j]
    decreases |keys|
  {
    if keys != {} {
      var m := Least(keys);
      var rest := Ascending(keys - {m});
      AscendingFacts(keys - {m});
      assert Ascending(keys) == [m] + rest;
      assert keys == {m} + (keys - {m});
      AscendingFrom(keys, m, rest);
    }
  }

  /** The least key before the others in order. */
  lemma AscendingFrom(keys: set<nat>, m: nat, rest: seq<nat>)
    requires IsLeast(m, keys) && |rest| == |keys| - 1 && forall k :: k in rest <==> k in keys && k != m
    requires forall i, j | 0 <= i < j < |rest| :: rest[i] < rest[j]
    ensures forall k :: k in [m] + rest <==> k in keys
    ensures forall i, j | 0 <= i < j < |keys| :: ([m] + rest)[i] < ([m] + rest)[j]
  {
    forall i, j | 0 <= i < j < |keys| ensures ([m] + rest)[i] < ([m] + rest)[j] {
      assert ([m] + rest)[j] == rest[j - 1] && rest[j - 1] in rest;
      if i > 0 { assert ([m] + rest)[i] == rest[i - 1]; }
    }
  }

  method FindLeast(keys: set<nat>) returns (m: nat)
    requires keys != {}
    ensures m == Least(keys)
  {
    m :| m in keys;
    var rest := keys;
    while rest != {}
      invariant rest <= keys && m in keys
      invariant forall k <- keys :: k in rest || m <= k
      decreases rest
    {
      var k :| k in rest;
      rest := rest - {k};
      if k < m { m := k; }
    }
    assert IsLeast(m, keys);
  }

  method SortKeys(keys: set<nat>) returns (s: seq<nat>)
    ensures s == Ascending(keys)
  {
    s := [];
    var left := keys;
    while left != {}
      invariant Ascending(keys) == s + Ascending(left)
      decreases left
    {
      var m := FindLeast(left);
      assert s + ([m] + Ascending(left - {m})) == s + [m] + Ascending(left - {m});
      s := s + [m];
      left := left - {m};
    }
  }

  // ---------- routes of one direction ----------

  function DirectionId(direction: string): U32 {
    if direction == "input" then DIRECTION_INPUT else DIRECTION_OUTPUT
  }

  /** A card's route table is keyed by direction and index, and both fit their 32- and 31-bit fields. */
  ghost predicate Keyed(routes: map<nat, Route>) {
    forall k <- routes :: k == RouteKey(routes[k].direction, routes[k].index) &&
                          routes[k].index < 0x8000_0000 && routes[k].direction < 0x1_0000_0000
  }

  function RouteIndexes(routes: map<nat, Route>, direction: nat): set<nat> {
    set k <- routes | routes[k].direction == direction :: routes[k].index
  }

  /** The routes of a direction in index order. */
  ghost function DirectionRoutes(routes: map<nat, Route>, direction: nat): seq<Route>
    requires Keyed(routes)
  {
    AscendingFacts(RouteIndexes(routes, direction));
    var indexes := Ascending(RouteIndexes(routes, direction));
    seq(|indexes|, i requires 0 <= i < |indexes| => RouteAt(routes, direction, indexes[i]))
  }

  function RouteAt(routes: map<nat, Route>, direction: nat, index: nat): Route
    requires index in RouteIndexes(routes, direction) && Keyed(routes)
  {
    routes[RouteKey(direction, index)]
  }

  predicate NodeMatches(node: Node, route: Route) {
    node.profileDevice >= 0 && route.cardDevice >= 0 && node.profileDevice == route.cardDevice
  }

  predicate MatchesSelectedNode(nodes: seq<Node>, route: Route) {
    exists i | 0 <= i < |nodes| :: NodeMatches(nodes[i], route)
  }

  function FirstMatching(nodes: seq<Node>, routes: seq<Route>, availableOnly: bool): Option<nat> {
    if routes == [] then None
    else if !(availableOnly && routes[0].availability == AVAILABILITY_NO) && MatchesSelectedNode(nodes, routes[0])
      then Some(routes[0].index)
    else FirstMatching(nodes, routes[1..], availableOnly)
  }

  /** Without a route reported active, the one taken to be: the first that fits a node and is not unavailable, or
      else the first that fits a node. */
  function InferredRoute(nodes: seq<Node>, routes: seq<Route>): Option<nat> {
    if exists i | 0 <= i < |routes| :: routes[i].active then None
    else
      var available := FirstMatching(nodes, routes, true);
      if available.Some? then available else FirstMatching(nodes, routes, false)
  }

  /** A route is dropped when it is unavailable and neither active nor inferred active. */
  predicate IsKept(route: Route, inferred: Option<nat>) {
    route.availability != AVAILABILITY_NO || route.active || inferred == Some(route.index)
  }

  function KeptRoutes(routes: seq<Route>, inferred: Option<nat>): (kept: seq<Route>)
    ensures forall r :: r in kept <==> r in routes && IsKept(r, inferred)
  {
    if routes == [] then []
    else (if IsKept(routes[0], inferred) then [routes[0]] else []) + KeptRoutes(routes[1..], inferred)
  }

  function SelectFrom(nodes: seq<Node>, route: Route, default: Node): Node {
    if nodes == [] then default
    else if NodeMatches(nodes[0], route) then nodes[0]
    else SelectFrom(nodes[1..], route, default)
  }

  /** The node a route's device belongs to: the first whose profile device it uses, or else the first. */
  function SelectedNode(nodes: seq<Node>, route: Route): Node
    requires nodes != []
  {
    SelectFrom(nodes, route, nodes[0])
  }

  predicate Contains(s: string, part: string)
    decreases |s|
  {
    |part| <= |s| && (s[..|part|] == part || (s != "" && Contains(s[1..], part)))
  }

  function OrElse(s: string, other: string): string {
    if s != "" then s else other
  }

  /** A text that is given replaces what was there, an empty one does not. */
  predicate TakesOver(after: string, given: string, before: string) {
    (given != "" ==> after == given) && (given == "" ==> after == before)
  }

  function RouteDisplayName(description: string, name: string, fallback: string, cardDescription: string): string {
    var shown := OrElse(description, OrElse(name, OrElse(fallback, "Device")));
    if cardDescription != "" && !Contains(shown, cardDescription) then shown + " - " + cardDescription else shown
  }

  function FallbackName(node: Node): string {
    OrElse(node.fallbackName, "Device " + ToString(node.nodeId))
  }

  /** The device a kept route becomes. */
  function RouteImage(card: U32, cardDescription: string, nodes: seq<Node>, inferred: Option<nat>, direction: string,
                      route: Route): Device
    requires nodes != [] && route.index < 0x8000_0000
  {
    var node := SelectedNode(nodes, route);
    Device(node.nodeId, card,
           if route.cardDevice >= 0 then route.cardDevice else node.profileDevice, route.index,
           route.active || inferred == Some(route.index), true, node.nodeName, node.serial,
           ToString(RouteId(card, DirectionId(direction), route.index)),
           RouteDisplayName(route.description, route.name, FallbackName(node), cardDescription),
           OrElse(node.kind, "unknown"), direction, route.availability != AVAILABILITY_NO)
  }

  /** The device a node falls back to when its card reports no routes. */
  function FallbackImage(card: nat, direction: string, node: Node): Device {
    Device(node.nodeId, card, node.profileDevice, -1, true, false, node.nodeName, node.serial, ToString(node.nodeId),
           FallbackName(node), OrElse(node.kind, "unknown"), direction, true)
  }

  // ---------- one direction of a refresh, as an effect on the device table ----------

  function AddImages(devices: map<string, Device>, card: U32, cardDescription: string, nodes: seq<Node>,
                     inferred: Option<nat>, direction: string, kept: seq<Route>): map<string, Device>
    requires nodes != [] && forall r <- kept :: r.index < 0x8000_0000
    decreases |kept|
  {
    if kept == [] then devices
    else
      var last := kept[|kept| - 1];
      AddImages(devices, card, cardDescription, nodes, inferred, direction, kept[..|kept| - 1])
        [RoutePath(card, DirectionId(direction), last.index) :=
           RouteImage(card, cardDescription, nodes, inferred, direction, last)]
  }

  function AddFallbacks(devices: map<string, Device>, card: nat, direction: string, nodes: seq<Node>): map<string,
      Device>
  {
    if nodes == [] then devices
    else
      var last := nodes[|nodes| - 1];
      AddFallbacks(devices, card, direction, nodes[..|nodes| - 1])
        [NodePath(last.nodeId) := FallbackImage(card, direction, last)]
  }

  function ImagePaths(card: U32, direction: string, kept: seq<Route>): set<string>
    requires forall r <- kept :: r.index < 0x8000_0000
  {
    set r <- kept :: RoutePath(card, DirectionId(direction), r.index)
  }

  function FallbackPaths(nodes: seq<Node>): set<string> {
    set n <- nodes :: NodePath(n.nodeId)
  }

  predicate IsCardRoute(d: Device, card: nat, direction: string) {
    d.isRoute && d.cardId == card && d.direction == direction
  }

  /** Route devices of the card in this direction that are not expected any more. */
  function Stale(devices: map<string, Device>, card: nat, direction: string, expected: set<string>): set<string> {
    set p <- devices | IsCardRoute(devices[p], card, direction) && p !in expected
  }

  /** The table with a direction's images added: none when there are no routes. */
  function Widened(devices: map<string, Device>, card: U32, cardDescription: string, nodes: seq<Node>,
                   routes: seq<Route>, direction: string): map<string, Device>
    requires nodes != [] && forall r <- routes :: r.index < 0x8000_0000
  {
    if routes == [] then devices
    else
      var inferred := InferredRoute(nodes, routes);
      AddImages(devices, card, cardDescription, nodes, inferred, direction, KeptRoutes(routes, inferred))
  }

  /** What a refresh removes from the widened table: route devices that are not expected and, when there are routes, the
      nodes' own devices. */
  function Dropped(widened: map<string, Device>, card: U32, nodes: seq<Node>, routes: seq<Route>, direction: string)
    : set<string>
    requires forall r <- routes :: r.index < 0x8000_0000
  {
    if routes == [] then Stale(widened, card, direction, {})
    else
      var kept := KeptRoutes(routes, InferredRoute(nodes, routes));
      Stale(widened, card, direction, ImagePaths(card, direction, kept)) + FallbackPaths(nodes)
  }

  /** The device table after refreshing one direction of a card with the given nodes and routes, both in order. */
  function RefreshedDirection(devices: map<string, Device>, card: U32, cardDescription: string, nodes: seq<Node>,
                              routes: seq<Route>, direction: string): map<string, Device>
    requires forall r <- routes :: r.index < 0x8000_0000
  {
    if nodes == [] then devices
    else
      var widened := Widened(devices, card, cardDescription, nodes, routes, direction);
      var trimmed := widened - Dropped(widened, card, nodes, routes, direction);
      if routes == [] then AddFallbacks(trimmed, card, direction, nodes) else trimmed
  }
}
