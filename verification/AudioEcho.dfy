/** A default device chosen by a client, and the echo of it in the backend's metadata. */
module AudioEcho {
  import opened Common
  import opened AudioModel
  import opened AudioReferences
  import opened AudioRegistry
  import opened AudioEvents
  import opened AudioControl
  import opened AudioMetadata

  /** The target the backend echoes for a stored device. */
  function Echo(d: Device): string {
    Target(UpToNul(DefaultJson(StoredName(d), d.nodeId)))
  }

  /** Whatever device the stored name means best is on the chosen device's node. */
  ghost predicate MeansOwnNode(devices: map<string, Device>, path: string)
    requires path in devices
  {
    forall best | IsBestMatch(devices, StoredName(devices[path]), best) :: devices[best].nodeId == devices[path].nodeId
  }

  /** The echo leaves an explicit choice alone exactly when the device it resolves to is on the chosen device's node,
      and otherwise makes that device active and ends the choice. */
  lemma EchoLeavesChoiceExactly(devices: map<string, Device>, path: string, resolved: string)
    requires path in devices && ROOT !in devices && NUL !in StoredName(devices[path])
    requires IsTargetResult(devices, Echo(devices[path]), resolved)
    ensures resolved in devices
    ensures FromMetadata(devices, resolved, path, path) ==
            if devices[resolved].nodeId == devices[path].nodeId then (path, path) else (resolved, ROOT)
  {
    hide Target, IsTargetResult;
    EchoResolves(devices, path, resolved);
  }

  /** Told before the choice: the echo leaves it alone exactly when the stored name means a device of the same node. */
  lemma ChoiceSurvivesExactly(devices: map<string, Device>, path: string, resolved: string)
    requires path in devices && ROOT !in devices && NUL !in StoredName(devices[path])
    requires IsTargetResult(devices, Echo(devices[path]), resolved)
    ensures FromMetadata(devices, resolved, path, path) == (path, path) <==> MeansOwnNode(devices, path)
  {
    hide Target, DefaultJson, UpToNul, Rank, StandsFor, Matches, FromMetadata, StoredName;
    var name := StoredName(devices[path]);
    StoredTargetReadsBackExactly(name, devices[path].nodeId);
    EchoLeavesChoiceExactly(devices, path, resolved);
    NamedByItself(devices[path]);
    var best :| IsBestMatch(devices, name, best) && StandsFor(devices, best, resolved);
    forall other | IsBestMatch(devices, name, other) ensures devices[other].nodeId == devices[resolved].nodeId {
      TargetFound(devices, name, resolved, other);
    }
  }

  /** In particular when no device of another node goes by the name. */
  lemma ChoiceSurvivesUniqueName(devices: map<string, Device>, path: string)
    requires path in devices
    requires forall p <- devices | Matches(devices[p], StoredName(devices[path])) ::
        devices[p].nodeId == devices[path].nodeId
    ensures MeansOwnNode(devices, path)
  {
  }

  /** A client makes a device the default and hears of it from the backend: if the name means the device's own node,
      the choice is active and still pending afterwards. */
  method ChooseAndHear(r: Registry, input: bool, path: string, stored: bool, accepted: bool) returns (result: Answer)
    requires Healthy(r) && path in r.devices && NUL !in StoredName(r.devices[path])
    modifies r`activeInput, r`pendingInput, r`activeOutput, r`pendingOutput
    ensures Healthy(r)
    ensures result == Done && MeansOwnNode(r.devices, path) ==>
      if input then r.activeInput == path && r.pendingInput == path
      else r.activeOutput == path && r.pendingOutput == path
    ensures result == Done && !MeansOwnNode(r.devices, path) ==>
      if input then r.activeInput != path && r.pendingInput == ROOT
      else r.activeOutput != path && r.pendingOutput == ROOT
  {
    hide Echo, IsTargetResult, MeansOwnNode, IndexAgrees, StreamsLive, StreamIndexAgrees, Keyed, FollowsNamed;
    result := SetDefaultDevice(r, input, path, stored, accepted);
    if result == Failed { return; }
    forall d | IsTargetResult(r.devices, Echo(r.devices[path]), d)
      ensures FromMetadata(r.devices, d, path, path) == if MeansOwnNode(r.devices, path) then (path, path)
                                                        else (d, ROOT)
      ensures !MeansOwnNode(r.devices, path) ==> d != path
    {
      EchoLeavesChoiceExactly(r.devices, path, d);
      ChoiceSurvivesExactly(r.devices, path, d);
    }
    if input {
      DefaultInputNamed(r, Echo(r.devices[path]));
    } else {
      DefaultOutputNamed(r, Echo(r.devices[path]));
    }
  }
}
