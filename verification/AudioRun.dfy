/** Whole runs of the audio service: whatever the events, the index stays a scan of the table and nothing dangles. */
module AudioRun {
  import opened Common
  import opened AudioModel
  import opened AudioReferences
  import opened AudioRegistry
  import opened AudioEvents
  import opened AudioNodeInfo
  import opened AudioRoutes
  import opened AudioControl

  datatype Event =
    | DeviceNodeAdded(id: U32, card: U32, profileDevice: int, nodeName: string, serial: string, name: string,
                      kind: string, direction: string, bound: bool)
    | StreamNodeAdded(id: U32, direction: string, target: string)
    | CardAdded(id: U32, named: bool, names: set<string>, description: string, bound: bool)
    | MetadataAdded(id: U32)
    | GlobalRemoved(id: U32)
    | NodeInformed(id: U32, info: NodeInfo, infoCard: U32, target: string, bound: bool)
    | CardInformed(id: U32, hasRouteParams: bool)
    | RouteReported(id: U32, report: Report, current: bool)
    | MetadataChanged(subject: U32, key: string, target: string)
    | ActiveInputSet(path: string, first: bool, stored: bool, accepted: bool)
    | ActiveOutputSet(path: string, first: bool, stored: bool, accepted: bool, refusing: set<string>)
    | StreamDeviceSet(stream: string, path: string, accepted: bool)

  method BindMetadataProxy(r: Registry, id: U32)
    requires Healthy(r)
    modifies r`metadata
    ensures Healthy(r) && r.metadata == if old(r.metadata).Some? then old(r.metadata) else Some(id)
  {
    if r.metadata.Some? { return; }
    r.metadata := Some(id);
  }

  /** The one event that can leave a dangling reference: a client write of a stream device that does not exist. */
  predicate Dangles(r: Registry, event: Event)
    reads r
  {
    event.StreamDeviceSet? && event.stream in r.streams && !Live(r.devices, event.path)
  }

  // ---------- one event, on values ----------

  /** The registry at one moment. */
  datatype State = State(devices: map<string, Device>, streams: map<string, Stream>, pathsByNode: map<nat, seq<string>>,
                         streamPathsByNode: map<nat, string>, active: Actives, cards: map<nat, map<nat, Route>>,
                         descriptions: map<nat, string>, routeSupport: map<nat, bool>, metadata: Option<nat>)

  ghost function Now(r: Registry): State
    reads r
  {
    State(r.devices, r.streams, r.pathsByNode, r.streamPathsByNode, r.Current(), r.cards, r.cardDescriptions,
          r.routeSupport, r.metadata)
  }

  /** The index is a scan of the table, streams and their index name each other, and no reference dangles. */
  ghost predicate Sound(s: State) {
    ROOT !in s.devices && IndexAgrees(s.devices, s.pathsByNode) && StreamIndexAgrees(s.streams, s.streamPathsByNode) &&
    Live(s.devices, s.active.input) && Live(s.devices, s.active.output) && StreamsLive(s.devices, s.streams) &&
    forall c <- s.cards :: Keyed(s.cards[c])
  }

  function DescriptionAt(s: State, card: nat): string {
    if card in s.descriptions then s.descriptions[card] else ""
  }

  function RefsAt(s: State): Refs {
    Refs(s.streams, s.active)
  }

  /** A reconciliation touches devices and references, and the tables of cards only as told. */
  predicate Reconciled(s: State, cards: map<nat, map<nat, Route>>, routeSupport: map<nat, bool>, s': State) {
    s' == s.(devices := s'.devices, pathsByNode := s'.pathsByNode, streams := s'.streams, active := s'.active,
             cards := cards, routeSupport := routeSupport)
  }

  ghost predicate NodeStep(s: State, id: U32, card: U32, device: Device, bound: bool, s': State)
    requires Sound(s) && Sound(s')
  {
    var added := s.devices[NodePath(id) := device];
    if card == INVALID_ID then
      Reconciled(s, s.cards, s.routeSupport, s') && s'.devices == added && RefsAt(s') == RefsAt(s)
    else
      Reconciled(s, Bound(s.cards, card, bound), BoundSupport(s.cards, s.routeSupport, card, bound), s') &&
      CardOutcome(added, RefsAt(s), s'.devices, RefsAt(s'), card, DescriptionAt(s, card), s'.cards)
  }

  ghost predicate CardStep(s: State, card: U32, named: bool, names: set<string>, description: string, bound: bool,
                           s': State)
    requires Sound(s)
  {
    var orphans := if named then Orphans(s.devices, names) else {};
    var described := if description != "" then s.descriptions[card := description] else s.descriptions;
    Reconciled(s.(descriptions := described), Bound(s.cards, card, bound),
               BoundSupport(s.cards, s.routeSupport, card, bound), s') &&
    if orphans == {} then s'.devices == s.devices && RefsAt(s') == RefsAt(s)
    else CardOutcome(Adopted(s.devices, card, orphans), RefsAt(s), s'.devices, RefsAt(s'), card,
                     DescriptionAt(s, card), s.cards)
  }

  ghost predicate InfoStep(s: State, id: U32, info: NodeInfo, target: string, bound: bool, s': State)
    requires info.card < 0x1_0000_0000 && Sound(s')
  {
    (if info.card == INVALID_ID then Reconciled(s, s.cards, s.routeSupport, s')
     else Reconciled(s, Bound(s.cards, info.card, bound), BoundSupport(s.cards, s.routeSupport, info.card, bound),
                     s')) &&
    InfoOutcome(s.devices, RefsAt(s), s'.devices, RefsAt(s'), id, info, target, DescriptionAt(s, info.card), s'.cards,
                s.streamPathsByNode)
  }

  ghost predicate RouteStep(s: State, card: U32, report: Report, current: bool, s': State)
    requires Sound(s')
  {
    if card !in s.cards then s' == s
    else Reconciled(s, s.cards[card := Reported(s.cards[card], report, current)], s.routeSupport, s') &&
         CardOutcome(s.devices, RefsAt(s), s'.devices, RefsAt(s'), card, DescriptionAt(s, card), s'.cards)
  }

  /** Everything keyed by the id goes, and what referred to a device of the node refers to nothing. */
  predicate RemoveStep(s: State, id: U32, s': State) {
    var refs := Forgotten(s.devices, RefsAt(s), id);
    s' == State(map p <- s.devices | s.devices[p].nodeId != id :: s.devices[p], refs.streams, s'.pathsByNode,
                s.streamPathsByNode - {id}, refs.active, s.cards - {id}, s.descriptions - {id}, s.routeSupport - {id},
                if s.metadata == Some(id) then None else s.metadata)
  }

  /** A new name of a default concerns its direction only, any other property only the stream it is about. */
  ghost predicate MetadataStep(s: State, subject: U32, key: string, target: string, s': State) {
    s' == s.(active := s'.active, streams := s'.streams) &&
    if subject == PW_CORE then
      s'.streams == s.streams &&
      if key in SOURCE_KEYS then InputNamed(s, target, s'.active)
      else if key in SINK_KEYS then OutputNamed(s, target, s'.active)
      else s'.active == s.active
    else
      s'.active == s.active &&
      if key in TARGET_KEYS && subject in s.streamPathsByNode
      then Retargeted(s, s.streamPathsByNode[subject], target, s'.streams)
      else s'.streams == s.streams
  }

  ghost predicate Retargeted(s: State, stream: string, target: string, streams: map<string, Stream>) {
    stream in s.streams &&
    exists d :: IsTargetResult(s.devices, target, d) && streams == s.streams[stream := s.streams[stream].(device := d)]
  }

  ghost predicate InputNamed(s: State, target: string, a: Actives) {
    a == s.active.(input := a.input, pendingInput := a.pendingInput) &&
    exists d :: IsTargetResult(s.devices, target, d) &&
                (a.input, a.pendingInput) == FromMetadata(s.devices, d, s.active.input, s.active.pendingInput)
  }

  ghost predicate OutputNamed(s: State, target: string, a: Actives) {
    a == s.active.(output := a.output, pendingOutput := a.pendingOutput) &&
    exists d :: IsTargetResult(s.devices, target, d) &&
                (a.output, a.pendingOutput) == FromMetadata(s.devices, d, s.active.output, s.active.pendingOutput)
  }

  /** Whether a default device can be made active, and whether it then stays pending. */
  predicate Settable(s: State, input: bool, path: string, first: bool, stored: bool) {
    RouteSettable(s.devices, s.cards, s.routeSupport, path, first) && s.metadata.Some? && stored && path in s.devices &&
    s.devices[path].direction == if input then "input" else "output"
  }

  function PendingAfter(s: State, path: string, accepted: bool): string {
    if RouteSettable(s.devices, s.cards, s.routeSupport, path, accepted) then path else ROOT
  }

  function InputSet(s: State, path: string, first: bool, stored: bool, accepted: bool): Actives {
    if Settable(s, true, path, first, stored)
      then s.active.(input := path, pendingInput := PendingAfter(s, path, accepted))
    else s.active
  }

  function OutputSet(s: State, path: string, first: bool, stored: bool, accepted: bool): Actives {
    if Settable(s, false, path, first, stored)
      then s.active.(output := path, pendingOutput := PendingAfter(s, path, accepted))
    else s.active
  }

  ghost predicate Step(s: State, event: Event, s': State)
    requires Sound(s) && Sound(s')
  {
    match event
    case DeviceNodeAdded(id, card, profileDevice, nodeName, serial, name, kind, direction, bound) =>
      NodeStep(s, id, card, NodeDevice(id, card, profileDevice, nodeName, serial, name, kind, direction), bound, s')
    case StreamNodeAdded(id, direction, target) =>
      StreamAddedTo(s, id, direction, target, s')
    case CardAdded(id, named, names, description, bound) => CardStep(s, id, named, names, description, bound, s')
    case MetadataAdded(id) => s' == s.(metadata := if s.metadata.Some? then s.metadata else Some(id))
    case GlobalRemoved(id) => RemoveStep(s, id, s')
    case NodeInformed(id, info, infoCard, target, bound) =>
      InfoStep(s, id, info.(card := infoCard), target, bound, s')
    case CardInformed(id, hasRouteParams) =>
      s' == if id in s.cards
            then s.(routeSupport := s.routeSupport[id := hasRouteParams],
                    cards := if hasRouteParams then s.cards[id := map[]] else s.cards)
            else s
    case RouteReported(id, report, current) => if InRange(report) then RouteStep(s, id, report, current, s')
                                               else s' == s
    case MetadataChanged(subject, key, target) => MetadataStep(s, subject, key, target, s')
    case ActiveInputSet(path, first, stored, accepted) => s' == s.(active := InputSet(s, path, first, stored, accepted))
    case ActiveOutputSet(path, first, stored, accepted, refusing) =>
      s' == s.(active := OutputSet(s, path, first, stored, accepted), streams := s'.streams) &&
      OnlyMovedTo(s.streams, s'.streams, path)
    case StreamDeviceSet(stream, path, accepted) =>
      s' == if stream in s.streams then s.(streams := s.streams[stream := s.streams[stream].(device := path)]) else s
  }

  ghost predicate StreamAddedTo(s: State, id: U32, direction: string, target: string, s': State) {
    if StreamPath(id) in s.streams then s' == s
    else exists d :: IsTargetResult(s.devices, target, d) &&
                     s' == s.(streams := s.streams[StreamPath(id) := Stream(id, direction, d)],
                              streamPathsByNode := s.streamPathsByNode[id := StreamPath(id)])
  }

  // ---------- runs ----------

  predicate IsGlobal(event: Event) {
    event.DeviceNodeAdded? || event.StreamNodeAdded? || event.CardAdded? || event.MetadataAdded? || event.GlobalRemoved?
  }

  predicate IsReported(event: Event) {
    event.CardInformed? || event.RouteReported? || event.MetadataChanged?
  }

  /** Globals that come and go. */
  method HandleGlobal(r: Registry, event: Event)
    requires Healthy(r) && IsGlobal(event)
    modifies r
    ensures Healthy(r) && Sound(old(Now(r))) && Sound(Now(r)) && Step(old(Now(r)), event, Now(r))
  {
    hide IndexAgrees, StreamsLive, StreamIndexAgrees, Keyed, CardOutcome, IsTargetResult, Adopted, Orphans, Forgotten,
         NodeDevice, InfoStep, RouteStep, MetadataStep;
    match event
    case DeviceNodeAdded(id, card, profileDevice, nodeName, serial, name, kind, direction, bound) =>
      AddDeviceNode(r, id, card, profileDevice, nodeName, serial, name, kind, direction, bound);
    case StreamNodeAdded(id, direction, target) => AddStreamNode(r, id, direction, target);
    case CardAdded(id, named, names, description, bound) => HandleCardGlobal(r, id, named, names, description, bound);
    case MetadataAdded(id) => BindMetadataProxy(r, id);
    case GlobalRemoved(id) => HandleRegistryGlobalRemove(r, id);
  }

  /** What a node reports about itself. */
  method HandleInformed(r: Registry, event: Event)
    requires Healthy(r) && event.NodeInformed?
    modifies r
    ensures Healthy(r) && Sound(old(Now(r))) && Sound(Now(r)) && Step(old(Now(r)), event, Now(r))
  {
    hide IndexAgrees, StreamsLive, StreamIndexAgrees, Keyed, InfoOutcome, IsTargetResult,
         NodeStep, CardStep, RemoveStep, RouteStep, MetadataStep, StreamAddedTo;
    HandleNodeInfo(r, event.id, event.info.(card := event.infoCard), event.target, event.bound);
  }

  /** What cards and the metadata report about themselves. */
  method HandleReported(r: Registry, event: Event)
    requires Healthy(r) && IsReported(event)
    modifies r
    ensures Healthy(r) && Sound(old(Now(r))) && Sound(Now(r)) && Step(old(Now(r)), event, Now(r))
  {
    hide IndexAgrees, StreamsLive, StreamIndexAgrees, Keyed, CardOutcome, CardExact, CardShown, IsTargetResult,
         FromMetadata, FollowsNamed, OnlyRetargeted, NodeStep, CardStep, RemoveStep, InfoStep, StreamAddedTo;
    match event
    case CardInformed(id, hasRouteParams) => HandleDeviceInfo(r, id, hasRouteParams);
    case RouteReported(id, report, current) => if InRange(report) { HandleDeviceRouteParam(r, id, report, current); }
    case MetadataChanged(subject, key, target) => HandleMetadataProperty(r, subject, key, target);
  }

  /** A client's wish for a default device. */
  method HandleDefaultSet(r: Registry, event: Event)
    requires Healthy(r) && (event.ActiveInputSet? || event.ActiveOutputSet?)
    modifies r
    ensures Healthy(r) && Sound(old(Now(r))) && Sound(Now(r)) && Step(old(Now(r)), event, Now(r))
  {
    hide IndexAgrees, StreamsLive, StreamIndexAgrees, Keyed, OnlyMovedTo, OnlyRetargeted, NodeStep, CardStep,
        RemoveStep, InfoStep,
         RouteStep, MetadataStep, StreamAddedTo, RouteSettable, Live;
    match event
    case ActiveInputSet(path, first, stored, accepted) =>
      var _ := OnSetActiveInputDevice(r, path, first, stored, accepted);
    case ActiveOutputSet(path, first, stored, accepted, refusing) =>
      var _ := OnSetActiveOutputDevice(r, path, first, stored, accepted, refusing);
  }

  method HandleStreamDeviceSet(r: Registry, event: Event)
    requires Healthy(r) && event.StreamDeviceSet?
    modifies r
    ensures Healthy(r) <==> !old(Dangles(r, event))
    ensures Healthy(r) ==> Sound(old(Now(r))) && Sound(Now(r)) && Step(old(Now(r)), event, Now(r))
  {
    hide IndexAgrees, StreamsLive, StreamIndexAgrees, Keyed, NodeStep, CardStep, RemoveStep, InfoStep, RouteStep,
        MetadataStep;
    if event.stream in r.streams {
      var _ := ClientSetsStreamDevice(r, event.stream, event.path, event.accepted);
    }
  }

  method Handle(r: Registry, event: Event)
    requires Healthy(r)
    modifies r
    ensures Healthy(r) <==> !old(Dangles(r, event))
    ensures Healthy(r) ==> Sound(old(Now(r))) && Sound(Now(r)) && Step(old(Now(r)), event, Now(r))
  {
    hide Step, Sound, Healthy;
    if IsGlobal(event) {
      HandleGlobal(r, event);
    } else if event.NodeInformed? {
      HandleInformed(r, event);
    } else if IsReported(event) {
      HandleReported(r, event);
    } else if event.StreamDeviceSet? {
      HandleStreamDeviceSet(r, event);
    } else {
      HandleDefaultSet(r, event);
    }
  }

  /** Sound moments, each one step after the one before. */
  ghost predicate IsRun(states: seq<State>, events: seq<Event>) {
    |states| == |events| + 1 && (forall s <- states :: Sound(s)) &&
    forall i | 0 <= i < |events| :: Step(states[i], events[i], states[i + 1])
  }

  /** Handles events up to the first that leaves a dangling reference. Up to there every event does its step, and
      after every single event each node's index entry is the exact duplicate-free list of its devices, both active
      devices and every stream's device are "/" or exist, and stream paths and node ids correspond. */
  method Run(r: Registry, events: seq<Event>) returns (handled: nat, ghost states: seq<State>)
    requires Healthy(r)
    modifies r
    ensures handled <= |events| && Healthy(r) && IsRun(states, events[..handled])
    ensures states[0] == old(Now(r)) && states[handled] == Now(r)
    ensures handled < |events| ==> Dangles(r, events[handled])
  {
    hide Step, Sound, Healthy;
    HealthySound(r);
    handled, states := 0, [Now(r)];
    while handled < |events| && !Dangles(r, events[handled])
      invariant handled <= |events| && Healthy(r) && IsRun(states, events[..handled])
      invariant states[0] == old(Now(r)) && states[handled] == Now(r)
    {
      Handle(r, events[handled]);
      OneMoreStep(states, events, handled, Now(r));
      states := states + [Now(r)];
      handled := handled + 1;
    }
  }

  lemma HealthySound(r: Registry)
    requires Healthy(r)
    ensures Sound(Now(r))
  {
  }

  lemma OneMoreStep(states: seq<State>, events: seq<Event>, i: nat, s': State)
    requires i < |events| && IsRun(states, events[..i]) && Sound(states[i]) && Sound(s') &&
        Step(states[i], events[i], s')
    ensures IsRun(states + [s'], events[..i + 1])
  {
    hide Step, Sound;
  }

  /** A default named by the backend in any step of a run is taken over, or left to a pending choice, as it should be.
      */
  lemma NamedDefaultFollowed(s: State, subject: U32, key: string, target: string, s': State)
    requires Sound(s) && Sound(s') && Step(s, MetadataChanged(subject, key, target), s') && subject == PW_CORE
    ensures key in SOURCE_KEYS ==> FollowsNamed(s.devices, target, s.active.input, s.active.pendingInput,
                                                s'.active.input, s'.active.pendingInput)
    ensures key in SINK_KEYS ==> FollowsNamed(s.devices, target, s.active.output, s.active.pendingOutput,
                                              s'.active.output, s'.active.pendingOutput)
  {
    hide IsTargetResult, FollowsNamed, FromMetadata;
    var a := s'.active;
    if key in SOURCE_KEYS {
      var d :| IsTargetResult(s.devices, target, d) &&
          (a.input, a.pendingInput) == FromMetadata(s.devices, d, s.active.input, s.active.pendingInput);
      NamedMeans(s.devices, target, d, s.active.input, s.active.pendingInput);
    } else if key in SINK_KEYS {
      var d :| IsTargetResult(s.devices, target, d) &&
          (a.output, a.pendingOutput) == FromMetadata(s.devices, d, s.active.output, s.active.pendingOutput);
      NamedMeans(s.devices, target, d, s.active.output, s.active.pendingOutput);
    }
    assert key in SOURCE_KEYS ==> key !in SINK_KEYS;
  }

  /** A new registry is healthy, so runs can start from it. */
  method Start() returns (r: Registry)
    ensures fresh(r) && Healthy(r) && r.devices == map[] && r.streams == map[]
  {
    r := new Registry();
  }

  /** What a healthy registry guarantees: the index entry of a node is present exactly when the node has a device, and
      then lists exactly its devices, each once; no reference dangles. */
  lemma HealthyMeans(r: Registry, node: nat)
    requires Healthy(r)
    ensures node in r.pathsByNode <==> exists p <- r.devices :: r.devices[p].nodeId == node
    ensures node in r.pathsByNode ==> NoDuplicates(r.pathsByNode[node])
    ensures node in r.pathsByNode ==>
      forall p :: p in r.pathsByNode[node] <==> p in r.devices && r.devices[p].nodeId == node
    ensures r.activeInput == ROOT || r.activeInput in r.devices
    ensures r.activeOutput == ROOT || r.activeOutput in r.devices
    ensures forall s <- r.streams :: r.streams[s].device == ROOT || r.streams[s].device in r.devices
  {
    assert EntryAgrees(r.devices, r.pathsByNode, node);
    if node in r.pathsByNode { EntryPresent(r.devices, r.pathsByNode, node); }
  }
}
