/** Choosing devices: metadata changes from the backend, and default devices and stream targets set by clients. */
module AudioControl {
  import opened Common
  import opened AudioModel
  import opened AudioReferences
  import opened AudioRegistry
  import opened AudioEvents
  import opened AudioNodeInfo

  datatype Answer = Done | Failed

  // ---------- metadata ----------

  /** The active and the pending device after the backend names a default: a pending choice is only given up for a
      device on another node. */
  function FromMetadata(devices: map<string, Device>, resolved: string, active: string, pending: string): (string,
      string) {
    if pending == ROOT || (pending in devices && resolved in devices &&
                           devices[pending].nodeId != devices[resolved].nodeId)
      then (resolved, ROOT)
    else (active, pending)
  }

  /** What naming a default means for the device in use. With no pending choice the device looked up becomes active.
      A pending choice ends, and the device looked up becomes active, exactly when both exist on different nodes. */
  ghost predicate FollowsNamed(devices: map<string, Device>, target: string, before: string, pending: string,
                               after: string, pendingAfter: string)
  {
    (pending == ROOT ==> IsTargetResult(devices, target, after) && pendingAfter == ROOT) &&
    (pending != ROOT ==>
       exists d :: IsTargetResult(devices, target, d) &&
                   if OnOtherNode(devices, pending, d) then after == d && pendingAfter == ROOT
                   else after == before && pendingAfter == pending)
  }

  ghost predicate OnOtherNode(devices: map<string, Device>, a: string, b: string) {
    exists m, n :: m != n && AtNode(devices, a, m) && AtNode(devices, b, n)
  }

  predicate AtNode(devices: map<string, Device>, path: string, node: nat) {
    path in devices && devices[path].nodeId == node
  }

  lemma NamedMeans(devices: map<string, Device>, target: string, d: string, active: string, pending: string)
    requires IsTargetResult(devices, target, d)
    ensures var after := FromMetadata(devices, d, active, pending);
            FollowsNamed(devices, target, active, pending, after.0, after.1)
  {
    hide IsTargetResult;
    if pending in devices && d in devices && devices[pending].nodeId != devices[d].nodeId {
      assert AtNode(devices, pending, devices[pending].nodeId) && AtNode(devices, d, devices[d].nodeId);
    }
  }

  method DefaultInputNamed(r: Registry, target: string)
    requires Healthy(r)
    modifies r`activeInput, r`pendingInput
    ensures Healthy(r)
    ensures exists d :: (IsTargetResult(r.devices, target, d) &&
      (r.activeInput, r.pendingInput) == FromMetadata(r.devices, d, old(r.activeInput), old(r.pendingInput)))
    ensures FollowsNamed(r.devices, target, old(r.activeInput), old(r.pendingInput), r.activeInput, r.pendingInput)
  {
    hide IndexAgrees, StreamsLive, StreamIndexAgrees, Keyed, IsTargetResult, FollowsNamed;
    var resolved := r.FindDevicePathByTargetObject(target);
    TargetLive(r.devices, target, resolved);
    NamedMeans(r.devices, target, resolved, r.activeInput, r.pendingInput);
    if r.pendingInput != ROOT {
      var differentNode := r.pendingInput in r.devices && resolved in r.devices &&
                           r.devices[r.pendingInput].nodeId != r.devices[resolved].nodeId;
      if differentNode {
        r.pendingInput := ROOT;
        r.UpdateActiveInput(resolved);
      }
    } else {
      r.UpdateActiveInput(resolved);
    }
  }

  method DefaultOutputNamed(r: Registry, target: string)
    requires Healthy(r)
    modifies r`activeOutput, r`pendingOutput
    ensures Healthy(r)
    ensures exists d :: (IsTargetResult(r.devices, target, d) &&
      (r.activeOutput, r.pendingOutput) == FromMetadata(r.devices, d, old(r.activeOutput), old(r.pendingOutput)))
    ensures FollowsNamed(r.devices, target, old(r.activeOutput), old(r.pendingOutput), r.activeOutput, r.pendingOutput)
  {
    hide IndexAgrees, StreamsLive, StreamIndexAgrees, Keyed, IsTargetResult, FollowsNamed;
    var resolved := r.FindDevicePathByTargetObject(target);
    TargetLive(r.devices, target, resolved);
    NamedMeans(r.devices, target, resolved, r.activeOutput, r.pendingOutput);
    if r.pendingOutput != ROOT {
      var differentNode := r.pendingOutput in r.devices && resolved in r.devices &&
                           r.devices[r.pendingOutput].nodeId != r.devices[resolved].nodeId;
      if differentNode {
        r.pendingOutput := ROOT;
        r.UpdateActiveOutput(resolved);
      }
    } else {
      r.UpdateActiveOutput(resolved);
    }
  }

  method HandleMetadataProperty(r: Registry, subject: U32, key: string, target: string)
    requires Healthy(r)
    modifies r`activeInput, r`pendingInput, r`activeOutput, r`pendingOutput, r`streams
    ensures Healthy(r)
    ensures subject == PW_CORE && key in SOURCE_KEYS ==>
      unchanged(r`activeOutput) && unchanged(r`pendingOutput) && unchanged(r`streams) &&
      exists d :: (IsTargetResult(r.devices, target, d) &&
        (r.activeInput, r.pendingInput) == FromMetadata(r.devices, d, old(r.activeInput), old(r.pendingInput)))
    ensures subject == PW_CORE && key in SOURCE_KEYS ==>
      FollowsNamed(r.devices, target, old(r.activeInput), old(r.pendingInput), r.activeInput, r.pendingInput)
    ensures subject == PW_CORE && key in SINK_KEYS ==>
      unchanged(r`activeInput) && unchanged(r`pendingInput) && unchanged(r`streams) &&
      exists d :: (IsTargetResult(r.devices, target, d) &&
        (r.activeOutput, r.pendingOutput) == FromMetadata(r.devices, d, old(r.activeOutput), old(r.pendingOutput)))
    ensures subject == PW_CORE && key in SINK_KEYS ==>
      FollowsNamed(r.devices, target, old(r.activeOutput), old(r.pendingOutput), r.activeOutput, r.pendingOutput)
    ensures subject != PW_CORE ==>
      unchanged(r`activeInput) && unchanged(r`pendingInput) && unchanged(r`activeOutput) &&
          unchanged(r`pendingOutput) &&
      if key in TARGET_KEYS && subject in r.streamPathsByNode
      then var s := r.streamPathsByNode[subject];
           exists d :: (IsTargetResult(r.devices, target, d) && s in old(r.streams) &&
                        r.streams == old(r.streams)[s := old(r.streams)[s].(device := d)])
      else r.streams == old(r.streams)
    ensures subject == PW_CORE && key !in SOURCE_KEYS + SINK_KEYS ==> unchanged(r)
  {
    hide IndexAgrees, StreamsLive, Keyed, IsTargetResult, FromMetadata, FollowsNamed;
    if subject == PW_CORE {
      if key in SOURCE_KEYS {
        DefaultInputNamed(r, target);
      } else if key in SINK_KEYS {
        DefaultOutputNamed(r, target);
      }
      return;
    }
    if key in TARGET_KEYS && subject in r.streamPathsByNode {
      var path := r.streamPathsByNode[subject];
      if path in r.streams {
        var device := r.FindDevicePathByTargetObject(target);
        TargetLive(r.devices, target, device);
        SetStreamTarget(r, path, device);
      }
    }
  }

  // ---------- the default device ----------

  /** Whether asking the card for a device's route succeeds: nothing to ask for, or a bound card that takes no routes,
      or the backend accepts. */
  predicate RouteSettable(devices: map<string, Device>, cards: map<nat, map<nat, Route>>, routeSupport: map<nat, bool>,
                          path: string, accepted: bool)
  {
    path in devices &&
    (!devices[path].isRoute || devices[path].routeIndex < 0 || devices[path].cardId == INVALID_ID ||
     (devices[path].cardId in cards &&
      ((devices[path].cardId in routeSupport && !routeSupport[devices[path].cardId]) || accepted)))
  }

  method SetRouteByDevicePath(r: Registry, path: string, accepted: bool) returns (result: Answer)
    ensures result == Done <==> RouteSettable(r.devices, r.cards, r.routeSupport, path, accepted)
    ensures path !in r.devices ==> result == Failed
    ensures path in r.devices ==>
      var d := r.devices[path];
      var asks := d.isRoute && d.routeIndex >= 0 && d.cardId != INVALID_ID;
      (!asks ==> result == Done) && (asks && d.cardId !in r.cards ==> result == Failed) &&
      (asks && d.cardId in r.cards ==>
         (result == Failed <==> !accepted && (d.cardId in r.routeSupport ==> r.routeSupport[d.cardId])))
  {
    if path !in r.devices { return Failed; }
    var device := r.devices[path];
    if !device.isRoute || device.routeIndex < 0 || device.cardId == INVALID_ID { return Done; }
    if device.cardId !in r.cards { return Failed; }
    if device.cardId in r.routeSupport && !r.routeSupport[device.cardId] { return Done; }
    return if accepted then Done else Failed;
  }

  /** Whether the default device can be stored as metadata. */
  predicate Storable(r: Registry, input: bool, path: string, stored: bool)
    reads r`metadata, r`devices
  {
    r.metadata.Some? && stored && path in r.devices && r.devices[path].direction == if input then "input" else "output"
  }

  /** Makes a device the default: it becomes active at once, and stays pending until its route is confirmed, unless its
      route cannot be set. */
  method SetDefaultDevice(r: Registry, input: bool, path: string, stored: bool, accepted: bool) returns (result: Answer)
    requires Healthy(r)
    modifies r`activeInput, r`pendingInput, r`activeOutput, r`pendingOutput
    ensures Healthy(r)
    ensures path == ROOT ==> unchanged(r) && (result == Done <==> r.metadata.Some? && stored)
    ensures path != ROOT ==>
      (result == Done <==>
         Storable(r, input, path, stored) && RouteSettable(r.devices, r.cards, r.routeSupport, path, accepted))
    ensures path != ROOT && Storable(r, input, path, stored) ==>
      var pending := if result == Done then path else ROOT;
      if input then r.activeInput == path && r.pendingInput == pending && unchanged(r`activeOutput) &&
          unchanged(r`pendingOutput)
      else r.activeOutput == path && r.pendingOutput == pending && unchanged(r`activeInput) && unchanged(r`pendingInput)
    ensures !Storable(r, input, path, stored) ==> unchanged(r)
  {
    hide IndexAgrees, StreamsLive, StreamIndexAgrees, Keyed;
    if r.metadata == None { return Failed; }
    if path == ROOT { return if stored then Done else Failed; }
    if path !in r.devices { return Failed; }
    if r.devices[path].direction != (if input then "input" else "output") { return Failed; }
    if !stored { return Failed; }
    if input {
      r.pendingInput := path;
      r.UpdateActiveInput(path);
    } else {
      r.pendingOutput := path;
      r.UpdateActiveOutput(path);
    }
    result := SetRouteByDevicePath(r, path, accepted);
    if result == Failed {
      if input { r.pendingInput := ROOT; } else { r.pendingOutput := ROOT; }
    }
  }

  /** What a client's wish for a default makes of the active and the pending device: they stay unless the route can be
      asked for and the default can be stored; then the device is active, and pending if its route is set. */
  function DefaultSet(r: Registry, input: bool, path: string, first: bool, stored: bool, accepted: bool,
                      active: string, pending: string)
    : (string, string)
    reads r`devices, r`cards, r`routeSupport, r`metadata
  {
    if RouteSettable(r.devices, r.cards, r.routeSupport, path, first) && Storable(r, input, path, stored)
      then (path, if RouteSettable(r.devices, r.cards, r.routeSupport, path, accepted) then path else ROOT)
    else (active, pending)
  }

  /** A client sets the active input: the route is asked for first, so a path that names no device fails, "/" included,
      and the part of `SetDefaultDevice` that clears the default is never reached from here. */
  method OnSetActiveInputDevice(r: Registry, path: string, first: bool, stored: bool, accepted: bool)
      returns (result: Answer)
    requires Healthy(r)
    modifies r`activeInput, r`pendingInput, r`activeOutput, r`pendingOutput
    ensures Healthy(r) && unchanged(r`activeOutput) && unchanged(r`pendingOutput)
    ensures path !in r.devices ==> result == Failed && unchanged(r)
    ensures result == Done ==> r.activeInput == path && r.pendingInput == path && r.devices[path].direction == "input"
    ensures (r.activeInput, r.pendingInput) ==
        DefaultSet(r, true, path, first, stored, accepted, old(r.activeInput), old(r.pendingInput))
    ensures result == Done <==>
      RouteSettable(r.devices, r.cards, r.routeSupport, path, first) && Storable(r, true, path, stored) &&
      RouteSettable(r.devices, r.cards, r.routeSupport, path, accepted)
  {
    hide IndexAgrees, StreamsLive, StreamIndexAgrees, Keyed;
    result := SetRouteByDevicePath(r, path, first);
    if result == Failed { return; }
    result := SetDefaultDevice(r, true, path, stored, accepted);
  }

  // ---------- stream targets ----------

  /** Points a stream at a device, or at nothing; fails without metadata, for an unknown device, or when the backend
      refuses. */
  method SetStreamDevice(r: Registry, stream: string, path: string, accepted: bool) returns (result: Answer)
    requires Healthy(r) && stream in r.streams
    modifies r`streams
    ensures Healthy(r)
    ensures result == Done <==> r.metadata.Some? && Live(r.devices, path) && accepted
    ensures r.streams == if result == Done then old(r.streams)[stream := old(r.streams)[stream].(device := path)]
                         else old(r.streams)
  {
    hide IndexAgrees, StreamsLive, StreamIndexAgrees, Keyed;
    if r.metadata == None { return Failed; }
    if path != ROOT && path !in r.devices { return Failed; }
    if !accepted { return Failed; }
    SetStreamTarget(r, stream, path);
    result := Done;
  }

  /** Streams changed their device only by moving to this one, and only output streams did. */
  ghost predicate OnlyMovedTo(before: map<string, Stream>, after: map<string, Stream>, path: string) {
    OnlyRetargeted(before, after) && forall s <- before ::
      after[s].device == before[s].device || (before[s].direction == "output" && after[s].device == path)
  }

  /** Moves the output streams to a device, in some order, until one refuses. */
  method MoveOutputStreams(r: Registry, path: string, refusing: set<string>) returns (result: Answer)
    requires Healthy(r)
    modifies r`streams
    ensures Healthy(r) && OnlyMovedTo(old(r.streams), r.streams, path)
    ensures result == Done ==> (forall s <- r.streams ::
      r.streams[s].device == if r.streams[s].direction == "output" then path else old(r.streams)[s].device)
  {
    hide IndexAgrees, StreamsLive, StreamIndexAgrees, Keyed;
    result := Done;
    var left := r.streams.Keys;
    while left != {}
      invariant left <= r.streams.Keys == old(r.streams).Keys && Healthy(r) && OnlyRetargeted(old(r.streams), r.streams)
      invariant forall s <- r.streams :: (r.streams[s].device ==
        if s !in left && r.streams[s].direction == "output" then path else old(r.streams)[s].device)
      decreases left
    {
      var s :| s in left;
      left := left - {s};
      if r.streams[s].direction == "output" {
        result := SetStreamDevice(r, s, path, s !in refusing);
        if result == Failed { return; }
      }
    }
  }

  /** A client sets the active output; then every output stream is moved. */
  method OnSetActiveOutputDevice(r: Registry, path: string, first: bool, stored: bool, accepted: bool,
                                 refusing: set<string>)
    returns (result: Answer)
    requires Healthy(r)
    modifies r`activeInput, r`pendingInput, r`activeOutput, r`pendingOutput, r`streams
    ensures Healthy(r) && unchanged(r`activeInput) && unchanged(r`pendingInput) &&
        OnlyMovedTo(old(r.streams), r.streams, path)
    ensures path !in r.devices ==> result == Failed && unchanged(r)
    ensures (r.activeOutput, r.pendingOutput) ==
        DefaultSet(r, false, path, first, stored, accepted, old(r.activeOutput), old(r.pendingOutput))
    ensures result == Done ==>
      r.activeOutput == path && r.pendingOutput == path && r.devices[path].direction == "output" &&
      (forall s <- r.streams ::
         r.streams[s].device == if r.streams[s].direction == "output" then path else old(r.streams)[s].device)
  {
    hide IndexAgrees, StreamsLive, StreamIndexAgrees, Keyed;
    result := SetRouteByDevicePath(r, path, first);
    if result == Failed { return; }
    result := SetDefaultDevice(r, false, path, stored, accepted);
    if result == Failed { return; }
    result := MoveOutputStreams(r, path, refusing);
  }

  /** A client writes a stream's `Device` property: the value is stored before the callback decides, so a refused
      write of an unknown device leaves the stream dangling, and only that does. */
  method ClientSetsStreamDevice(r: Registry, stream: string, path: string, accepted: bool) returns (result: Answer)
    requires Healthy(r) && stream in r.streams
    modifies r`streams
    ensures r.streams == old(r.streams)[stream := old(r.streams)[stream].(device := path)]
    ensures Healthy(r) <==> Live(r.devices, path)
    ensures result == Done ==> Live(r.devices, path)
  {
    hide IndexAgrees, Keyed, StreamIndexAgrees, StreamsLive;
    RetargetedOnce(r.devices, r.streams, r.streamPathsByNode, stream, path);
    if path == r.streams[stream].device { return Done; }
    r.streams := r.streams[stream := r.streams[stream].(device := path)];
    if !Live(r.devices, path) {
      // SetStreamDevice refuses an unknown device, with or without metadata.
      return Failed;
    }
    result := SetStreamDevice(r, stream, path, accepted);
  }

  lemma RetargetedOnce(devices: map<string, Device>, streams: map<string, Stream>, index: map<nat, string>,
                       stream: string, path: string)
    requires StreamsLive(devices, streams) && StreamIndexAgrees(streams, index) && stream in streams
    ensures var after := streams[stream := streams[stream].(device := path)];
            (StreamsLive(devices, after) <==> Live(devices, path)) && StreamIndexAgrees(after, index)
  {
    var after := streams[stream := streams[stream].(device := path)];
    RetargetedAgrees(streams, after, index);
    assert after[stream].device == path;
  }
}
