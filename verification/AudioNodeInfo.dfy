/** Node properties arriving after the node, and the choice of its active route. */
module AudioNodeInfo {
  import opened Common
  import opened AudioModel
  import opened AudioReferences
  import opened AudioRegistry
  import opened AudioEvents

  datatype NodeInfo = NodeInfo(description: string, nick: string, nodeName: string, serial: string, card: nat,
                               profileDevice: Option<int>)

  /** What a device learns from its node's properties; a route device keeps its name, availability and known profile
      device. */
  function InformedDevice(d: Device, info: NodeInfo): Device {
    d.(name := if d.isRoute then d.name else OrElse(info.description, OrElse(info.nick, OrElse(info.nodeName, d.name))),
       nodeName := OrElse(info.nodeName, d.nodeName),
       serial := OrElse(info.serial, d.serial),
       cardId := if info.card != INVALID_ID then info.card else d.cardId,
       profileDevice := if info.profileDevice.Some? && (!d.isRoute || d.profileDevice < 0) then info.profileDevice.value
                        else d.profileDevice,
       available := !d.isRoute || d.available)
  }

  function Informed(devices: map<string, Device>, node: nat, info: NodeInfo): map<string, Device> {
    map p <- devices :: if devices[p].nodeId == node then InformedDevice(devices[p], info) else devices[p]
  }

  /** What a device of the node takes over from the node's properties. A route device keeps its name, its availability
      and a profile device it knows; any other becomes available. */
  ghost predicate LearnedFrom(d: Device, info: NodeInfo, d': Device) {
    d' == d.(name := d'.name, nodeName := d'.nodeName, serial := d'.serial, cardId := d'.cardId,
             profileDevice := d'.profileDevice, available := d'.available) &&
    TakesOver(d'.nodeName, info.nodeName, d.nodeName) && TakesOver(d'.serial, info.serial, d.serial) &&
    (info.card == INVALID_ID ==> d'.cardId == d.cardId) && (info.card != INVALID_ID ==> d'.cardId == info.card) &&
    (d.isRoute ==> d'.name == d.name && d'.available == d.available) &&
    (d.isRoute && d.profileDevice >= 0 ==> d'.profileDevice == d.profileDevice) &&
    (!d.isRoute || d.profileDevice < 0 ==>
       d'.profileDevice == if info.profileDevice.Some? then info.profileDevice.value else d.profileDevice) &&
    (!d.isRoute ==>
       d'.available &&
       (info.description != "" ==> d'.name == info.description) &&
       (info.description == "" && info.nick != "" ==> d'.name == info.nick) &&
       (info.description == "" && info.nick == "" ==> TakesOver(d'.name, info.nodeName, d.name)))
  }

  /** Exactly the node's devices learn from its properties. */
  lemma InformedMeans(devices: map<string, Device>, node: nat, info: NodeInfo)
    ensures Informed(devices, node, info).Keys == devices.Keys
    ensures forall p <- devices :: var d' := Informed(devices, node, info)[p];
      if devices[p].nodeId == node then LearnedFrom(devices[p], info, d') else d' == devices[p]
  {
  }

  /** A route device of the node whose profile device is known. */
  predicate OnNode(d: Device, node: nat) {
    d.nodeId == node && d.isRoute && d.profileDevice >= 0
  }

  function Fitting(devices: map<string, Device>, node: nat, selected: int): set<string> {
    set p <- devices | OnNode(devices[p], node) && devices[p].profileDevice == selected
  }

  /** The route to keep active among those of the selected profile device: one already active, else one available. */
  ghost predicate ChosenFits(devices: map<string, Device>, node: nat, selected: int, chosen: string) {
    var fitting := Fitting(devices, node, selected);
    if fitting == {} then chosen == ROOT
    else chosen in fitting &&
         ((exists p <- fitting :: devices[p].routeActive) ==> devices[chosen].routeActive) &&
         ((exists p <- fitting :: devices[p].available) ==> devices[chosen].routeActive || devices[chosen].available)
  }

  function WithActive(devices: map<string, Device>, node: nat, chosen: string): map<string, Device> {
    map p <- devices :: if OnNode(devices[p], node) then devices[p].(routeActive := p == chosen) else devices[p]
  }

  ghost predicate RouteChosen(before: map<string, Device>, after: map<string, Device>, node: nat,
                              selected: Option<int>) {
    if selected == None || selected.value < 0 then after == before
    else exists chosen :: (ChosenFits(before, node, selected.value, chosen) &&
                           after == WithActive(before, node, chosen))
  }

  /** Once a profile device is selected, at most one known route of the node is active, and exactly one when a route has
      that profile device. */
  lemma AtMostOneActive(before: map<string, Device>, after: map<string, Device>, node: nat, selected: nat)
    requires ROOT !in before && RouteChosen(before, after, node, Some(selected))
    ensures forall p, q | p in after && q in after && OnNode(after[p], node) && OnNode(after[q], node) ::
      after[p].routeActive && after[q].routeActive ==> p == q
    ensures (exists p <- after :: OnNode(after[p], node) && after[p].routeActive) <==>
            (exists p <- after :: OnNode(after[p], node) && after[p].profileDevice == selected)
  {
    var chosen :| ChosenFits(before, node, selected, chosen) && after == WithActive(before, node, chosen);
    if Fitting(before, node, selected) == {} {
      assert forall p <- after :: OnNode(after[p], node) ==>
        OnNode(before[p], node) && p !in Fitting(before, node, selected);
    } else {
      assert chosen in after && OnNode(after[chosen], node) && after[chosen].routeActive;
    }
  }

  // ---------- the handler ----------

  method InformDevices(r: Registry, node: nat, info: NodeInfo)
    requires EntryAgrees(r.devices, r.pathsByNode, node)
    modifies r`devices
    ensures r.devices == Informed(old(r.devices), node, info)
  {
    hide InformedDevice;
    var paths := r.FindDevicePathsByNodeId(node);
    ghost var before := r.devices;
    assert NoDuplicates(paths) && forall p :: p in paths <==> p in before && before[p].nodeId == node;
    hide EntryAgrees;
    var i := 0;
    while i < |paths|
      invariant 0 <= i <= |paths| && r.devices.Keys == before.Keys
      invariant forall p <- before :: r.devices[p] == if p in paths[..i] then InformedDevice(before[p], info)
                                                      else before[p]
    {
      var d := r.devices[paths[i]];
      assert paths[i] !in paths[..i];
      assert paths[..i + 1] == paths[..i] + [paths[i]];
      r.devices := r.devices[paths[i] := InformedDevice(d, info)];
      i := i + 1;
    }
    assert paths[..|paths|] == paths;
  }

  /** Devices with `routeActive` set on some paths. */
  function Marked(devices: map<string, Device>, paths: set<string>, active: string): map<string, Device> {
    map p <- devices :: if p in paths then devices[p].(routeActive := p == active) else devices[p]
  }

  /** The node's known routes of another profile device. */
  function Misfits(devices: map<string, Device>, node: nat, selected: int): set<string> {
    set p <- devices | OnNode(devices[p], node) && devices[p].profileDevice != selected
  }

  method CollectMatching(r: Registry, node: nat, selected: nat)
      returns (touchedAny: bool, matching: seq<string>, preferred: string)
    requires ROOT !in r.devices && EntryAgrees(r.devices, r.pathsByNode, node)
    modifies r`devices
    ensures r.devices == Marked(old(r.devices), Misfits(old(r.devices), node, selected), ROOT)
    ensures forall p :: p in matching <==> p in Fitting(old(r.devices), node, selected)
    ensures if preferred == ROOT then forall p <- matching :: !old(r.devices)[p].routeActive
            else preferred in matching && old(r.devices)[preferred].routeActive
    ensures touchedAny <==> exists p <- old(r.devices) :: OnNode(old(r.devices)[p], node)
  {
    hide OnNode, Misfits, Fitting, Marked;
    var paths := r.FindDevicePathsByNodeId(node);
    ghost var before, seen := r.devices, {};
    ghost var misfits, fitting := Misfits(before, node, selected), Fitting(before, node, selected);
    touchedAny, matching, preferred := false, [], ROOT;
    NothingMarked(before, ROOT);
    var i := 0;
    while i < |paths|
      invariant 0 <= i <= |paths| && r.devices == Marked(before, misfits * seen, ROOT)
      invariant forall p :: p in seen <==> p in paths[..i]
      invariant forall p :: p in matching <==> p in seen && p in fitting
      invariant if preferred == ROOT then forall p <- matching :: !before[p].routeActive
                else preferred in matching && before[preferred].routeActive
      invariant touchedAny <==> exists p <- seen :: OnNode(before[p], node)
    {
      var path := paths[i];
      assert paths[..i + 1] == paths[..i] + [path];
      assert path !in seen;
      MarkedStep(before, misfits, seen, path);
      Kinds(before, path, node, selected);
      var d := r.devices[path];
      i := i + 1;
      seen := seen + {path};
      if !d.isRoute || d.profileDevice < 0 { continue; }
      touchedAny := true;
      if d.profileDevice != selected {
        r.devices := r.devices[path := d.(routeActive := false)];
        continue;
      }
      matching := matching + [path];
      if preferred == ROOT && d.routeActive { preferred := path; }
    }
    assert paths[..|paths|] == paths;
    AllListed(before, r.pathsByNode, node, selected);
    assert misfits * seen == misfits;
  }

  lemma NothingMarked(devices: map<string, Device>, active: string)
    ensures forall s: set<string> :: Marked(devices, s * {}, active) == devices
  {
    forall s: set<string> ensures Marked(devices, s * {}, active) == devices {
      assert s * {} == {};
    }
  }

  lemma MarkedStep(devices: map<string, Device>, misfits: set<string>, seen: set<string>, path: string)
    requires path in devices && path !in seen && path != ROOT
    ensures var marked := Marked(devices, misfits * seen, ROOT);
            path in marked && marked[path] == devices[path] &&
            Marked(devices, misfits * (seen + {path}), ROOT) ==
              if path in misfits then marked[path := devices[path].(routeActive := false)] else marked
  {
  }

  lemma Kinds(devices: map<string, Device>, path: string, node: nat, selected: int)
    requires path in devices && devices[path].nodeId == node
    ensures OnNode(devices[path], node) <==> devices[path].isRoute && devices[path].profileDevice >= 0
    ensures path in Fitting(devices, node, selected) <==>
            OnNode(devices[path], node) && devices[path].profileDevice == selected
    ensures path in Misfits(devices, node, selected) <==>
            OnNode(devices[path], node) && devices[path].profileDevice != selected
  {
  }

  lemma AllListed(devices: map<string, Device>, index: map<nat, seq<string>>, node: nat, selected: int)
    requires EntryAgrees(devices, index, node)
    ensures var paths := if node in index then index[node] else [];
            (forall p <- Misfits(devices, node, selected) :: p in paths) &&
            (forall p <- Fitting(devices, node, selected) :: p in paths) &&
            (forall p <- devices :: OnNode(devices[p], node) ==> p in paths)
  {
  }

  /** The first available of the given devices, or else the first. */
  method FirstAvailable(r: Registry, paths: seq<string>) returns (chosen: string)
    requires paths != [] && forall p <- paths :: p in r.devices
    ensures chosen in paths
    ensures (exists p <- paths :: r.devices[p].available) ==> r.devices[chosen].available
  {
    var i := 0;
    while i < |paths|
      invariant 0 <= i <= |paths| && forall p <- paths[..i] :: !r.devices[p].available
    {
      if r.devices[paths[i]].available { return paths[i]; }
      assert paths[..i + 1] == paths[..i] + [paths[i]];
      i := i + 1;
    }
    assert paths[..|paths|] == paths;
    chosen := paths[0];
  }

  method MarkActive(r: Registry, paths: seq<string>, active: string)
    requires forall p <- paths :: p in r.devices
    modifies r`devices
    ensures r.devices == Marked(old(r.devices), (set p <- paths), active)
  {
    var i := 0;
    while i < |paths|
      invariant 0 <= i <= |paths| && r.devices == Marked(old(r.devices), (set p <- paths[..i]), active)
    {
      var path := paths[i];
      assert paths[..i + 1] == paths[..i] + [path];
      r.devices := r.devices[path := r.devices[path].(routeActive := path == active)];
      i := i + 1;
    }
    assert paths[..|paths|] == paths;
  }

  lemma MarkedBoth(before: map<string, Device>, node: nat, selected: nat, matching: set<string>, active: string)
    requires matching == Fitting(before, node, selected) && ROOT !in before
    requires if matching == {} then active == ROOT else active in matching
    ensures Marked(Marked(before, Misfits(before, node, selected), ROOT), matching, active) ==
        WithActive(before, node, active)
  {
  }

  /** Keeps one route of the selected profile device active and deactivates the node's other known routes. */
  method ChooseActiveRoute(r: Registry, node: nat, selected: nat) returns (touchedAny: bool)
    requires ROOT !in r.devices && EntryAgrees(r.devices, r.pathsByNode, node)
    modifies r`devices
    ensures RouteChosen(old(r.devices), r.devices, node, Some(selected))
    ensures touchedAny <==> exists p <- old(r.devices) :: OnNode(old(r.devices)[p], node)
  {
    hide EntryAgrees, OnNode, WithActive;
    ghost var before := r.devices;
    var matching, preferred;
    touchedAny, matching, preferred := CollectMatching(r, node, selected);
    ghost var fitting := Fitting(before, node, selected);
    assert (set p <- matching) == fitting;
    if matching != [] {
      assert matching[0] in fitting;
      if preferred == ROOT {
        preferred := FirstAvailable(r, matching);
      }
    } else {
      assert fitting == {};
    }
    MarkedBoth(before, node, selected, fitting, preferred);
    MarkActive(r, matching, preferred);
    assert ChosenFits(before, node, selected, preferred);
  }

  lemma InformedKeeps(devices: map<string, Device>, node: nat, info: NodeInfo)
    ensures var after := Informed(devices, node, info);
            after.Keys == devices.Keys && forall p <- devices :: after[p].nodeId == devices[p].nodeId
  {
  }

  lemma ChosenKeeps(before: map<string, Device>, after: map<string, Device>, node: nat, selected: Option<int>)
    requires RouteChosen(before, after, node, selected)
    ensures after.Keys == before.Keys && forall p <- before :: after[p].nodeId == before[p].nodeId
  {
  }

  method HandleNodeInfo(r: Registry, id: U32, info: NodeInfo, target: string, bound: bool)
    requires Healthy(r) && info.card < 0x1_0000_0000
    modifies r`devices, r`pathsByNode, r`streams, r`activeInput, r`activeOutput, r`pendingInput, r`pendingOutput,
        r`cards,
             r`routeSupport
    ensures Healthy(r)
    ensures InfoOutcome(old(r.devices), old(r.References()), r.devices, r.References(), id, info, target,
                        old(r.DescriptionOf(info.card)), r.cards, r.streamPathsByNode)
    ensures r.cards == (if info.card == INVALID_ID then old(r.cards) else Bound(old(r.cards), info.card, bound))
    ensures r.routeSupport == if info.card == INVALID_ID then old(r.routeSupport)
                              else BoundSupport(old(r.cards), old(r.routeSupport), info.card, bound)
  {
    hide IndexAgrees, StreamsLive, EntryAgrees, StreamIndexAgrees, Informed, RouteChosen, CardOutcome, Keyed, Reread,
        Retarget;
    InformAndChoose(r, id, info);
    ghost var chosen, active := r.devices, r.Current();
    if info.card != INVALID_ID {
      BindAndRefresh(r, info.card, bound);
    }
    ghost var mid := r.References();
    ReadTarget(r, id, target);
    assert InfoThrough(old(r.devices), old(r.References()), chosen, active, mid, r.devices, r.References(), id, info,
                       target, old(r.DescriptionOf(info.card)), r.cards, r.streamPathsByNode);
  }

  /** The node's stream, if it has one, follows the target it names. */
  method ReadTarget(r: Registry, id: U32, target: string)
    requires Healthy(r)
    modifies r`streams
    ensures Healthy(r) && Retarget(r.devices, r.streamPathsByNode, id, target, old(r.streams), r.streams)
  {
    hide IndexAgrees, StreamsLive, EntryAgrees, StreamIndexAgrees, Keyed, IsTargetResult;
    if id in r.streamPathsByNode {
      var path := r.streamPathsByNode[id];
      if path in r.streams {
        var device := r.FindDevicePathByTargetObject(target);
        TargetLive(r.devices, target, device);
        SetStreamTarget(r, path, device);
      }
    }
  }

  ghost predicate Retarget(devices: map<string, Device>, streamPaths: map<nat, string>, id: nat, target: string,
                           streams: map<string, Stream>, streams': map<string, Stream>)
  {
    if id in streamPaths && streamPaths[id] in streams then
      exists d :: (IsTargetResult(devices, target, d) &&
                   streams' == streams[streamPaths[id] := streams[streamPaths[id]].(device := d)])
    else streams' == streams
  }

  ghost predicate NodeOutcome(before: map<string, Device>, refs: Refs, after: map<string, Device>, refs': Refs,
                              card: U32, cardDescription: string, cards: map<nat, map<nat, Route>>)
    requires forall c <- cards :: Keyed(cards[c])
  {
    if card == INVALID_ID then after == before && refs' == refs
    else CardOutcome(before, refs, after, refs', card, cardDescription, cards)
  }

  /** The active devices after a profile device was selected: read again if the node has a known route. */
  ghost predicate Reread(informed: map<string, Device>, chosen: map<string, Device>, node: nat, selected: Option<int>,
                         a: Actives, a': Actives)
  {
    if selected.Some? && selected.value >= 0 && exists p <- informed :: OnNode(informed[p], node)
    then ActiveRefreshed(chosen, node, a, a') else a' == a
  }

  /** A node's information: its devices are told, a route of the selected profile device is chosen and the active
      devices are read again, then its card is refreshed, and last its stream follows the target it names. */
  ghost predicate InfoThrough(before: map<string, Device>, refs: Refs, chosen: map<string, Device>, active: Actives,
                              mid: Refs,
                              after: map<string, Device>, refs': Refs, id: U32, info: NodeInfo, target: string,
                              cardDescription: string, cards: map<nat, map<nat, Route>>, streamPaths: map<nat, string>)
    requires info.card < 0x1_0000_0000 && forall c <- cards :: Keyed(cards[c])
  {
    RouteChosen(Informed(before, id, info), chosen, id, info.profileDevice) &&
    Reread(Informed(before, id, info), chosen, id, info.profileDevice, refs.active, active) &&
    NodeOutcome(chosen, refs.(active := active), after, mid, info.card, cardDescription, cards) &&
    refs'.active == mid.active && Retarget(after, streamPaths, id, target, mid.streams, refs'.streams)
  }

  ghost predicate InfoOutcome(before: map<string, Device>, refs: Refs, after: map<string, Device>, refs': Refs, id: U32,
                              info: NodeInfo, target: string, cardDescription: string, cards: map<nat, map<nat, Route>>,
                              streamPaths: map<nat, string>)
    requires info.card < 0x1_0000_0000 && forall c <- cards :: Keyed(cards[c])
  {
    exists chosen, active, mid :: InfoThrough(before, refs, chosen, active, mid, after, refs', id, info, target,
                                              cardDescription, cards, streamPaths)
  }

  method InformAndChoose(r: Registry, id: U32, info: NodeInfo)
    requires Healthy(r)
    modifies r`devices, r`activeInput, r`activeOutput, r`pendingInput, r`pendingOutput
    ensures Healthy(r)
    ensures RouteChosen(Informed(old(r.devices), id, info), r.devices, id, info.profileDevice)
    ensures Reread(Informed(old(r.devices), id, info), r.devices, id, info.profileDevice, old(r.Current()), r.Current())
  {
    hide IndexAgrees, StreamsLive, EntryAgrees, StreamIndexAgrees, Informed, OnNode, Keyed, ChosenFits, WithActive,
         ActiveRefreshed;
    EntryOf(r.devices, r.pathsByNode, id);
    InformDevices(r, id, info);
    InformedKeeps(old(r.devices), id, info);
    StillValid(old(r.devices), r.devices, r.pathsByNode, r.streams);
    if info.profileDevice.Some? && info.profileDevice.value >= 0 {
      ghost var informed := r.devices;
      EntryOf(r.devices, r.pathsByNode, id);
      var touchedAny := ChooseActiveRoute(r, id, info.profileDevice.value);
      ChosenKeeps(informed, r.devices, id, info.profileDevice);
      StillValid(informed, r.devices, r.pathsByNode, r.streams);
      if touchedAny { r.RefreshActiveDevicesForNode(id); }
    }
  }

  method SetStreamTarget(r: Registry, path: string, device: string)
    requires Healthy(r) && path in r.streams && Live(r.devices, device)
    modifies r`streams
    ensures Healthy(r) && r.streams == old(r.streams)[path := old(r.streams)[path].(device := device)]
  {
    hide IndexAgrees, Keyed;
    r.streams := r.streams[path := r.streams[path].(device := device)];
    RetargetedAgrees(old(r.streams), r.streams, r.streamPathsByNode);
  }

  lemma StillValid(before: map<string, Device>, after: map<string, Device>, index: map<nat, seq<string>>,
                   streams: map<string, Stream>)
    requires IndexAgrees(before, index) && StreamsLive(before, streams) && before.Keys == after.Keys
    requires forall p <- before :: before[p].nodeId == after[p].nodeId
    ensures IndexAgrees(after, index) && StreamsLive(after, streams)
  {
    hide IndexAgrees;
    SameNodesAgree(before, after, index);
  }
}
