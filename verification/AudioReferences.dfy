/** What refers to devices, and what becomes of it when devices are removed, re-read or chosen. */
module AudioReferences {
  import opened AudioModel

  // ---------- invariants over values ----------

  ghost predicate NoDuplicates(s: seq<string>) {
    forall i, j | 0 <= i < j < |s| :: s[i] != s[j]
  }

  /** The index entry of a node lists, once each, exactly the paths of the node's devices, and is absent when there
      are none. */
  ghost predicate EntryAgrees(devices: map<string, Device>, index: map<nat, seq<string>>, node: nat) {
    (node in index ==> index[node] != [] && NoDuplicates(index[node])) &&
    (forall p :: (node in index && p in index[node]) <==> (p in devices && devices[p].nodeId == node))
  }

  ghost predicate IndexAgrees(devices: map<string, Device>, index: map<nat, seq<string>>) {
    forall node: nat :: EntryAgrees(devices, index, node)
  }

  predicate Live(devices: map<string, Device>, path: string) {
    path == ROOT || path in devices
  }

  ghost predicate StreamsLive(devices: map<string, Device>, streams: map<string, Stream>) {
    forall s <- streams :: Live(devices, streams[s].device)
  }

  /** A preferred device of a node: none when the node has no device, otherwise one of the best rank. */
  ghost predicate IsPreferred(devices: map<string, Device>, node: nat, path: string) {
    if forall p <- devices :: devices[p].nodeId != node then path == ROOT
    else path in devices && devices[path].nodeId == node &&
         forall p <- devices :: devices[p].nodeId == node ==> Rank(devices[path]) <= Rank(devices[p])
  }

  /** The device a metadata target names: of those it matches, one of the best rank, and of these the first in path
      order. */
  ghost predicate IsBestMatch(devices: map<string, Device>, target: string, best: string) {
    best in devices && Matches(devices[best], target) &&
    forall p <- devices :: Matches(devices[p], target) ==>
      Rank(devices[best]) < Rank(devices[p]) || (Rank(devices[best]) == Rank(devices[p]) && !LexLess(p, best))
  }

  /** A lookup result for a metadata target: "/" when nothing matches, otherwise a preferred device of the best
      match's node. */
  ghost predicate IsTargetResult(devices: map<string, Device>, target: string, path: string) {
    if forall p <- devices :: !Matches(devices[p], target) then path == ROOT
    else exists best :: IsBestMatch(devices, target, best) && StandsFor(devices, best, path)
  }

  /** A device's node is represented by a preferred device of it, if it is a node at all. */
  ghost predicate StandsFor(devices: map<string, Device>, best: string, path: string) {
    best in devices &&
    if devices[best].nodeId == INVALID_ID then path == best else IsPreferred(devices, devices[best].nodeId, path)
  }

  /** A device with an active route is preferred to one without, and of two alike in that an available one. */
  predicate NoWorse(a: Device, b: Device) {
    if a.routeActive == b.routeActive then a.available || !b.available else a.routeActive
  }

  lemma RankMeans(a: Device, b: Device)
    ensures Rank(a) <= Rank(b) <==> NoWorse(a, b)
  {
  }

  /** What is preferred on a node is one of its devices and no worse than any of them; no device is only preferred on a
      node without devices. */
  lemma PreferredMeans(devices: map<string, Device>, node: nat, path: string)
    requires ROOT !in devices && IsPreferred(devices, node, path)
    ensures path == ROOT <==> forall p <- devices :: devices[p].nodeId != node
    ensures path != ROOT ==> path in devices && devices[path].nodeId == node
    ensures path != ROOT ==> forall p <- devices :: devices[p].nodeId == node ==> NoWorse(devices[path], devices[p])
  {
    hide Rank, NoWorse;
    if path != ROOT {
      forall p <- devices | devices[p].nodeId == node ensures NoWorse(devices[path], devices[p]) {
        RankMeans(devices[path], devices[p]);
      }
    }
  }

  lemma NoTarget(devices: map<string, Device>)
    ensures forall p <- devices :: !Matches(devices[p], "")
  {
  }

  /** What a lookup finds exists, is on the best match's node and ranks no worse than any match. */
  lemma TargetFound(devices: map<string, Device>, target: string, path: string, best: string)
    requires ROOT !in devices && IsBestMatch(devices, target, best) && IsTargetResult(devices, target, path)
    ensures path in devices && devices[path].nodeId == devices[best].nodeId
    ensures forall p <- devices :: Matches(devices[p], target) ==>
      Rank(devices[path]) <= Rank(devices[p]) && NoWorse(devices[path], devices[p])
  {
    hide Matches, LexLess, Rank, NoWorse;
    forall a, b ensures Rank(a) <= Rank(b) <==> NoWorse(a, b) {
      RankMeans(a, b);
    }
    var other :| IsBestMatch(devices, target, other) && StandsFor(devices, other, path);
    if other != best { LexTotal(other, best); }
  }

  /** Streams of a removed device follow the replacement. */
  function Redirected(streams: map<string, Stream>, gone: string, replacement: string): map<string, Stream> {
    map s <- streams :: if streams[s].device == gone then streams[s].(device := replacement) else streams[s]
  }

  /** The replacement as an active device: only if it has the right direction. */
  function ReplacementFor(devices: map<string, Device>, direction: string, path: string): string {
    if path in devices && devices[path].direction == direction then path else ROOT
  }

  /** The same streams with the same nodes and directions. */
  ghost predicate OnlyRetargeted(before: map<string, Stream>, after: map<string, Stream>) {
    after.Keys == before.Keys && forall s <- before :: after[s] == before[s].(device := after[s].device)
  }

  /** The active devices, and the explicit choices the backend has not confirmed yet. */
  datatype Actives = Actives(input: string, output: string, pendingInput: string, pendingOutput: string)

  /** The active device of one direction after the state of a node was re-read. */
  function NextActive(devices: map<string, Device>, node: nat, direction: string, preferred: string, current: string)
    : string
  {
    if current != ROOT then
      if current in devices && devices[current].nodeId == node then ReplacementFor(devices, direction, preferred)
      else current
    else if preferred in devices && devices[preferred].direction == direction && devices[preferred].routeActive
      then preferred
    else ROOT
  }

  /** An explicit choice of this node that the backend has not overruled yet. */
  predicate PendingOn(devices: map<string, Device>, node: nat, pending: string) {
    pending != ROOT && pending in devices && devices[pending].nodeId == node
  }

  /** What re-reading a node does to the active and pending devices: a pending choice on the node freezes everything
      until its route is active, which clears it; otherwise both directions follow the node's preferred device. */
  ghost predicate ActiveRefreshed(devices: map<string, Device>, node: nat, a: Actives, a': Actives) {
    if PendingOn(devices, node, a.pendingInput) then
      a' == if devices[a.pendingInput].routeActive then a.(pendingInput := ROOT) else a
    else if PendingOn(devices, node, a.pendingOutput) then
      a' == if devices[a.pendingOutput].routeActive then a.(pendingOutput := ROOT) else a
    else
      exists p :: (IsPreferred(devices, node, p) &&
                   a' == a.(input := NextActive(devices, node, "input", p, a.input),
                            output := NextActive(devices, node, "output", p, a.output)))
  }

  /** An active device of the node gives way to the node's preferred device, or to none if that has another direction. A
      missing one is filled by a preferred device whose route is active. Any other stays. */
  ghost predicate FollowsNode(devices: map<string, Device>, node: nat, direction: string, preferred: string,
                              before: string, after: string)
  {
    var fits := preferred in devices && devices[preferred].direction == direction;
    var onNode := before in devices && devices[before].nodeId == node;
    (before != ROOT && onNode && fits ==> after == preferred) &&
    (before != ROOT && onNode && !fits ==> after == ROOT) &&
    (before != ROOT && !onNode ==> after == before) &&
    (before == ROOT && fits && devices[preferred].routeActive ==> after == preferred) &&
    (before == ROOT && !(fits && devices[preferred].routeActive) ==> after == ROOT)
  }

  /** Both active devices follow a node that is re-read, unless a pending choice is on it; such a choice, and nothing
      else, is confirmed when its route is active. */
  lemma ActivesFollowNode(devices: map<string, Device>, node: nat, a: Actives, a': Actives)
    requires ActiveRefreshed(devices, node, a, a')
    ensures PendingOn(devices, node, a.pendingInput) || PendingOn(devices, node, a.pendingOutput) ==>
      a'.input == a.input && a'.output == a.output
    ensures !PendingOn(devices, node, a.pendingInput) && !PendingOn(devices, node, a.pendingOutput) ==>
      a'.pendingInput == a.pendingInput && a'.pendingOutput == a.pendingOutput &&
      exists p | IsPreferred(devices, node, p) :: FollowsNode(devices, node, "input", p, a.input, a'.input) &&
                                                  FollowsNode(devices, node, "output", p, a.output, a'.output)
    ensures PendingOn(devices, node, a.pendingInput) ==>
      a'.pendingOutput == a.pendingOutput &&
      a'.pendingInput == if devices[a.pendingInput].routeActive then ROOT else a.pendingInput
    ensures !PendingOn(devices, node, a.pendingInput) && PendingOn(devices, node, a.pendingOutput) ==>
      a'.pendingInput == a.pendingInput &&
      a'.pendingOutput == if devices[a.pendingOutput].routeActive then ROOT else a.pendingOutput
  {
    hide IsPreferred;
    if !PendingOn(devices, node, a.pendingInput) && !PendingOn(devices, node, a.pendingOutput) {
      var p :| IsPreferred(devices, node, p) &&
          a' == a.(input := NextActive(devices, node, "input", p, a.input),
                   output := NextActive(devices, node, "output", p, a.output));
      NextFollows(devices, node, "input", p, a.input);
      NextFollows(devices, node, "output", p, a.output);
    }
  }

  lemma NextFollows(devices: map<string, Device>, node: nat, direction: string, preferred: string, current: string)
    ensures FollowsNode(devices, node, direction, preferred, current,
                        NextActive(devices, node, direction, preferred, current))
  {
  }

  lemma NextActiveLive(devices: map<string, Device>, node: nat, direction: string, preferred: string, current: string)
    requires Live(devices, current)
    ensures Live(devices, NextActive(devices, node, direction, preferred, current))
  {
  }

  lemma PreferredLive(devices: map<string, Device>, node: nat, path: string)
    requires IsPreferred(devices, node, path)
    ensures Live(devices, path)
  {
  }

  lemma OthersAgree(devices: map<string, Device>, index: map<nat, seq<string>>, path: string)
    requires IndexAgrees(devices, index) && path in devices
    ensures forall n: nat :: n != devices[path].nodeId ==> EntryAgrees(devices - {path}, index, n)
  {
    forall n: nat | n != devices[path].nodeId ensures EntryAgrees(devices - {path}, index, n) {
      assert EntryAgrees(devices, index, n);
    }
  }

  lemma RedirectedLive(devices: map<string, Device>, streams: map<string, Stream>, path: string, replacement: string)
    requires StreamsLive(devices, streams) && Live(devices - {path}, replacement)
    ensures StreamsLive(devices - {path}, Redirected(streams, path, replacement))
  {
  }

  lemma MoreLive(devices: map<string, Device>, streams: map<string, Stream>, path: string, device: Device)
    requires StreamsLive(devices, streams)
    ensures StreamsLive(devices[path := device], streams)
  {
  }

  lemma EntryOf(devices: map<string, Device>, index: map<nat, seq<string>>, node: nat)
    requires IndexAgrees(devices, index)
    ensures EntryAgrees(devices, index, node)
  {
  }

  /** Re-reading several nodes, one after the other. */
  ghost predicate AllRefreshed(devices: map<string, Device>, nodes: seq<Node>, before: Actives, after: Actives)
    decreases |nodes|
  {
    if nodes == [] then after == before
    else exists a: Actives :: ActiveRefreshed(devices, nodes[0].nodeId, before, a) &&
                              AllRefreshed(devices, nodes[1..], a, after)
  }

  lemma {:induction false} OneMoreRefreshed(devices: map<string, Device>, nodes: seq<Node>, node: Node, before: Actives,
                                            a: Actives, after: Actives)
    requires AllRefreshed(devices, nodes, before, a) && ActiveRefreshed(devices, node.nodeId, a, after)
    ensures AllRefreshed(devices, nodes + [node], before, after)
    decreases |nodes|
  {
    hide ActiveRefreshed;
    if nodes == [] {
      assert AllRefreshed(devices, [node][1..], after, after);
      assert nodes + [node] == [node];
    } else {
      var b: Actives :| ActiveRefreshed(devices, nodes[0].nodeId, before, b) && AllRefreshed(devices, nodes[1..], b, a);
      OneMoreRefreshed(devices, nodes[1..], node, b, a, after);
      assert (nodes + [node])[1..] == nodes[1..] + [node];
    }
  }

  // ---------- where references to removed devices go ----------

  /** Everything that refers to a device: streams, active devices and pending choices. */
  datatype Refs = Refs(streams: map<string, Stream>, active: Actives)

  /** Some devices of a table are gone, and nothing else happened to it. */
  ghost predicate Fewer(before: map<string, Device>, after: map<string, Device>) {
    after.Keys <= before.Keys && forall p <- after :: after[p] == before[p]
  }

  /** A stream of a device that is gone is on a preferred device of the same node, any other is where it was. */
  ghost predicate StreamMoved(before: map<string, Device>, after: map<string, Device>, d: string, d': string) {
    if d in before && d !in after then IsPreferred(after, before[d].nodeId, d') else d' == d
  }

  predicate NodeHasOnly(devices: map<string, Device>, node: nat, direction: string) {
    forall p <- devices :: devices[p].nodeId == node ==> devices[p].direction == direction
  }

  /** An active device that is gone is replaced by a preferred device of the same node if that has the direction, or by
      none; always by a preferred one when all devices of the node have the direction. */
  ghost predicate ActiveMoved(before: map<string, Device>, after: map<string, Device>, direction: string, d: string,
                              d': string)
  {
    if d in before && d !in after then
      (d' == ROOT || (d' in after && IsPreferred(after, before[d].nodeId, d') && after[d'].direction == direction)) &&
      (NodeHasOnly(before, before[d].nodeId, direction) ==> IsPreferred(after, before[d].nodeId, d'))
    else d' == d
  }

  /** What removing devices does to the references; pending choices are left as they are. */
  ghost predicate RefsMoved(before: map<string, Device>, after: map<string, Device>, refs: Refs, refs': Refs) {
    OnlyRetargeted(refs.streams, refs'.streams) &&
    (forall s <- refs.streams :: StreamMoved(before, after, refs.streams[s].device, refs'.streams[s].device)) &&
    ActiveMoved(before, after, "input", refs.active.input, refs'.active.input) &&
    ActiveMoved(before, after, "output", refs.active.output, refs'.active.output) &&
    refs'.active == refs.active.(input := refs'.active.input, output := refs'.active.output)
  }

  lemma RefsStay(devices: map<string, Device>, refs: Refs)
    ensures RefsMoved(devices, devices, refs, refs)
  {
  }

  /** The removal of one device. */
  lemma RefsMovedOnce(before: map<string, Device>, path: string, r: string, refs: Refs, refs': Refs)
    requires path in before && ROOT !in before && IsPreferred(before - {path}, before[path].nodeId, r)
    requires var after := before - {path};
             refs'.streams == Redirected(refs.streams, path, r) &&
             refs'.active == refs.active.(
               input := if refs.active.input == path then ReplacementFor(after, "input", r) else refs.active.input,
               output := if refs.active.output == path then ReplacementFor(after, "output", r) else refs.active.output)
    ensures RefsMoved(before, before - {path}, refs, refs')
  {
  }

  lemma PreferredAmongFewer(before: map<string, Device>, after: map<string, Device>, node: nat, path: string)
    requires Fewer(before, after) && ROOT !in before && IsPreferred(before, node, path) && Live(after, path)
    ensures IsPreferred(after, node, path)
  {
  }

  lemma StreamMovedTwice(a: map<string, Device>, b: map<string, Device>, c: map<string, Device>, d: string, e: string,
                         f: string)
    requires Fewer(a, b) && Fewer(b, c) && ROOT !in a && StreamMoved(a, b, d, e) && StreamMoved(b, c, e, f)
    ensures StreamMoved(a, c, d, f)
  {
    hide IsPreferred;
    if d in a && d !in b {
      PreferredLive(b, a[d].nodeId, e);
      if Live(c, e) { PreferredAmongFewer(b, c, a[d].nodeId, e); } else { PreferredOnNode(b, a[d].nodeId, e); }
    }
  }

  lemma PreferredOnNode(devices: map<string, Device>, node: nat, path: string)
    requires path in devices && ROOT !in devices && IsPreferred(devices, node, path)
    ensures devices[path].nodeId == node
  {
  }

  lemma ActiveMovedTwice(a: map<string, Device>, b: map<string, Device>, c: map<string, Device>, direction: string,
                         d: string, e: string, f: string)
    requires Fewer(a, b) && Fewer(b, c) && ROOT !in a
    requires ActiveMoved(a, b, direction, d, e) && ActiveMoved(b, c, direction, e, f)
    ensures ActiveMoved(a, c, direction, d, f)
  {
    hide IsPreferred;
    if d in a && d !in b {
      var node := a[d].nodeId;
      if e != ROOT { PreferredOnNode(b, node, e); }
      if IsPreferred(b, node, e) && Live(c, e) { PreferredAmongFewer(b, c, node, e); }
    }
  }

  /** Removing devices in two goes. */
  lemma RefsMovedTwice(a: map<string, Device>, b: map<string, Device>, c: map<string, Device>, x: Refs, y: Refs,
                       z: Refs)
    requires Fewer(a, b) && Fewer(b, c) && ROOT !in a && RefsMoved(a, b, x, y) && RefsMoved(b, c, y, z)
    ensures RefsMoved(a, c, x, z)
  {
    hide StreamMoved, ActiveMoved, Fewer;
    forall s <- x.streams ensures StreamMoved(a, c, x.streams[s].device, z.streams[s].device) {
      StreamMovedTwice(a, b, c, x.streams[s].device, y.streams[s].device, z.streams[s].device);
    }
    ActiveMovedTwice(a, b, c, "input", x.active.input, y.active.input, z.active.input);
    ActiveMovedTwice(a, b, c, "output", x.active.output, y.active.output, z.active.output);
  }

  /** With all devices of a node gone, whatever referred to one of them refers to nothing. */
  function WithoutNode(devices: map<string, Device>, refs: Refs, node: nat): Refs {
    Refs(map s <- refs.streams :: if OnNodeAt(devices, node, refs.streams[s].device)
                                  then refs.streams[s].(device := ROOT) else refs.streams[s],
         refs.active.(input := if OnNodeAt(devices, node, refs.active.input) then ROOT else refs.active.input,
                      output := if OnNodeAt(devices, node, refs.active.output) then ROOT else refs.active.output))
  }

  predicate OnNodeAt(devices: map<string, Device>, node: nat, path: string) {
    path in devices && devices[path].nodeId == node
  }

  lemma NodeGone(devices: map<string, Device>, node: nat, refs: Refs, refs': Refs)
    requires RefsMoved(devices, map p <- devices | devices[p].nodeId != node :: devices[p], refs, refs')
    ensures refs' == WithoutNode(devices, refs, node)
  {
    var after := map p <- devices | devices[p].nodeId != node :: devices[p];
    forall s <- refs.streams
      ensures refs'.streams[s].device == if OnNodeAt(devices, node, refs.streams[s].device) then ROOT
                                         else refs.streams[s].device
    {
      assert StreamMoved(devices, after, refs.streams[s].device, refs'.streams[s].device);
    }
    assert refs'.streams == WithoutNode(devices, refs, node).streams;
  }
}
