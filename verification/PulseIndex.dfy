/** The PulseAudio registry: a device per port, named by an encoded path, and for each direction and PulseAudio index
    the set of its paths. The service keeps one table for sinks and one for sources; here one table is keyed by
    direction and index. */
module PulseIndex {
  import opened Common
  import opened Numerals

  datatype Direction = Out | In

  const BASE := "/org/jappeos/Session/AudioService"

  // ---------- paths ----------

  predicate IsBytes(s: string) {
    forall i | 0 <= i < |s| :: s[i] as nat < 256
  }

  function Hex(d: nat): char
    requires d < 16
  {
    "0123456789ABCDEF"[d]
  }

  function Encoded(s: string): (r: string)
    requires IsBytes(s)
    ensures |r| == 2 * |s|
  {
    if s == [] then [] else HexPair(s[0]) + Encoded(s[1..])
  }

  method EncodeForObjectPath(s: string) returns (out: string)
    requires IsBytes(s)
    ensures out == Encoded(s)
  {
    hide Encoded, Hex;
    out := [];
    var i := 0;
    assert s[0..] == s;
    while i < |s|
      invariant 0 <= i <= |s| && Encoded(s) == out + Encoded(s[i..])
    {
      assert s[i..] == [s[i]] + s[i + 1..];
      EncodedNext(Encoded(s), out, s[i], s[i + 1..]);
      Associative(out, [Hex(s[i] as nat / 16)], [Hex(s[i] as nat % 16)]);
      out := out + [Hex(s[i] as nat / 16)];
      out := out + [Hex(s[i] as nat % 16)];
      i := i + 1;
    }
    NothingLeft(out, Encoded(s[|s|..]));
  }

  lemma NothingLeft(out: string, rest: string)
    requires rest == ""
    ensures out + rest == out
  {
  }

  function HexPair(c: char): string
    requires c as nat < 256
  {
    [Hex(c as nat / 16)] + [Hex(c as nat % 16)]
  }

  /** One more byte of the input and its two digits. */
  lemma EncodedNext(whole: string, out: string, c: char, rest: string)
    requires c as nat < 256 && IsBytes(rest) && IsBytes([c] + rest) && whole == out + Encoded([c] + rest)
    ensures whole == (out + HexPair(c)) + Encoded(rest)
  {
    hide Encoded, HexPair, IsBytes;
    EncodedCons(c, rest);
    Associative(out, HexPair(c), Encoded(rest));
  }

  lemma EncodedCons(c: char, rest: string)
    requires c as nat < 256 && IsBytes(rest)
    ensures IsBytes([c] + rest) && Encoded([c] + rest) == HexPair(c) + Encoded(rest)
  {
    hide HexPair;
    assert ([c] + rest)[1..] == rest;
  }

  lemma {:induction false} EncodedInjective(a: string, b: string)
    requires IsBytes(a) && IsBytes(b)
    ensures Encoded(a) == Encoded(b) <==> a == b
    decreases |a|
  {
    hide Hex, Encoded;
    if Encoded(a) == Encoded(b) {
      assert |a| == |b|;
      if a != [] {
        EncodedParts(a);
        EncodedParts(b);
        PairInjective(a[0], b[0]);
        EncodedInjective(a[1..], b[1..]);
        assert a == [a[0]] + a[1..] && b == [b[0]] + b[1..];
      }
    }
  }

  lemma EncodedParts(s: string)
    requires IsBytes(s) && s != []
    ensures Encoded(s)[..2] == HexPair(s[0]) && Encoded(s)[2..] == Encoded(s[1..])
  {
  }

  lemma PairInjective(a: char, b: char)
    requires a as nat < 256 && b as nat < 256
    ensures HexPair(a) == HexPair(b) <==> a == b
  {
    hide Hex;
    var x, y := HexPair(a), HexPair(b);
    if x == y {
      assert x[0] == y[0] && x[1] == y[1];
      HexInjective(a as nat / 16, b as nat / 16);
      HexInjective(a as nat % 16, b as nat % 16);
    }
  }

  lemma HexInjective(a: nat, b: nat)
    requires a < 16 && b < 16
    ensures Hex(a) == Hex(b) <==> a == b
  {
  }

  function DirectionText(d: Direction): string {
    if d == Out then "out" else "in"
  }

  function Leaf(d: Direction, index: nat, portName: string): string
    requires IsBytes(portName)
  {
    DirectionText(d) + "_" + ToString(index) + "_p" + Encoded(portName)
  }

  function DevicePath(d: Direction, index: nat, portName: string): string
    requires IsBytes(portName)
  {
    BASE + "/Devices/" + Leaf(d, index, portName)
  }

  lemma LeafParts(d: Direction, index: nat, portName: string)
    requires IsBytes(portName)
    ensures var leaf, at, digits := Leaf(d, index, portName), |DirectionText(d)| + 1, ToString(index);
            |leaf| >= at + |digits| + 2 && leaf[0] == (if d == Out then 'o' else 'i') &&
            leaf[at..at + |digits|] == digits && leaf[at + |digits|] == '_' &&
                leaf[at + |digits| + 2..] == Encoded(portName)
  {
    hide Encoded, ToString;
    FourParts(DirectionText(d) + "_", ToString(index), "_p", Encoded(portName));
  }

  lemma FourParts(a: string, b: string, c: string, e: string)
    requires a != "" && c != ""
    ensures var s := a + b + c + e;
            |s| == |a| + |b| + |c| + |e| && s[0] == a[0] && s[|a|..|a| + |b|] == b && s[|a| + |b|] == c[0] &&
            s[|a| + |b| + |c|..] == e
  {
    var s := a + b + c + e;
    assert s[..|a| + |b|] == a + b;
    assert s[|a|..|a| + |b|] == (a + b)[|a|..];
  }

  function FirstNonDigit(s: string): nat {
    if s == [] || !IsDigit(s[0]) then 0 else 1 + FirstNonDigit(s[1..])
  }

  lemma {:induction false} DigitsThen(s: string, digits: string)
    requires |digits| < |s| && s[..|digits|] == digits && !IsDigit(s[|digits|])
    requires forall i | 0 <= i < |digits| :: IsDigit(digits[i])
    ensures FirstNonDigit(s) == |digits|
    decreases |digits|
  {
    if digits != [] {
      assert s[0] == digits[0] && s[1..][..|digits| - 1] == digits[1..];
      DigitsThen(s[1..], digits[1..]);
    }
  }

  lemma Behind(a: string, b: string)
    ensures (a + b)[|a|..] == b
  {
  }

  /** Paths differ for different directions, indexes or port names. */
  lemma PathsInjective(d1: Direction, i1: nat, n1: string, d2: Direction, i2: nat, n2: string)
    requires IsBytes(n1) && IsBytes(n2)
    ensures DevicePath(d1, i1, n1) == DevicePath(d2, i2, n2) <==> d1 == d2 && i1 == i2 && n1 == n2
  {
    hide Leaf, IsBytes;
    Behind(BASE + "/Devices/", Leaf(d1, i1, n1));
    Behind(BASE + "/Devices/", Leaf(d2, i2, n2));
    LeafInjective(d1, i1, n1, d2, i2, n2);
  }

  lemma LeafInjective(d1: Direction, i1: nat, n1: string, d2: Direction, i2: nat, n2: string)
    requires IsBytes(n1) && IsBytes(n2)
    ensures Leaf(d1, i1, n1) == Leaf(d2, i2, n2) <==> d1 == d2 && i1 == i2 && n1 == n2
  {
    hide Leaf, Encoded, ToString, IsBytes, FirstNonDigit;
    if Leaf(d1, i1, n1) == Leaf(d2, i2, n2) {
      LeafParts(d1, i1, n1);
      LeafParts(d2, i2, n2);
      LeafDigits(d1, i1, n1);
      LeafDigits(d2, i2, n2);
      ToStringInjective(i1, i2);
      EncodedInjective(n1, n2);
    }
  }

  lemma LeafDigits(d: Direction, index: nat, portName: string)
    requires IsBytes(portName)
    ensures |Leaf(d, index, portName)| > |DirectionText(d)| + 1
    ensures FirstNonDigit(Leaf(d, index, portName)[|DirectionText(d)| + 1..]) == |ToString(index)|
  {
    hide Leaf, Encoded, ToString, IsBytes, FirstNonDigit, DirectionText;
    LeafParts(d, index, portName);
    DigitsThen(Leaf(d, index, portName)[|DirectionText(d)| + 1..], ToString(index));
  }

  /** The ids shown to clients are not as careful: index and port name run together. */
  function DeviceId(d: Direction, index: nat, portName: string): string {
    (if d == Out then "output" else "input") + ToString(index) + portName
  }

  /** The digits of j extend those of i by a run that port n starts with, and the rest of n is port m. */
  predicate RunsTogether(i: nat, n: string, j: nat, m: string) {
    |ToString(i)| < |ToString(j)| && ToString(i) <= ToString(j) && n == ToString(j)[|ToString(i)|..] + m
  }

  /** Two devices share an id exactly when they are the same device, or have the same direction and the digits of one
      index extend those of the other by a run the other's port starts with. */
  lemma IdsEqualExactly(d1: Direction, i1: nat, n1: string, d2: Direction, i2: nat, n2: string)
    ensures DeviceId(d1, i1, n1) == DeviceId(d2, i2, n2) <==>
            d1 == d2 && ((i1 == i2 && n1 == n2) || RunsTogether(i1, n1, i2, n2) || RunsTogether(i2, n2, i1, n1))
  {
    hide ToString;
    var h1, h2 := (if d1 == Out then "output" else "input"), (if d2 == Out then "output" else "input");
    assert DeviceId(d1, i1, n1) == h1 + (ToString(i1) + n1) && DeviceId(d2, i2, n2) == h2 + (ToString(i2) + n2);
    if DeviceId(d1, i1, n1) == DeviceId(d2, i2, n2) {
      assert (h1 + (ToString(i1) + n1))[0] == h1[0] && (h2 + (ToString(i2) + n2))[0] == h2[0];
      assert (h1 + (ToString(i1) + n1))[|h1|..] == ToString(i1) + n1 &&
          (h2 + (ToString(i2) + n2))[|h2|..] == ToString(i2) + n2;
    }
    if d1 == d2 {
      ToStringInjective(i1, i2);
      JoinedEqual(ToString(i1), n1, ToString(i2), n2);
    }
  }

  /** Two texts joined of two parts are equal exactly when one first part extends the other by what the other's second
      part starts with. */
  lemma JoinedEqual(a: string, n: string, b: string, m: string)
    ensures a + n == b + m <==>
            (a == b && n == m) || (|a| < |b| && a <= b && n == b[|a|..] + m) ||
                (|b| < |a| && b <= a && m == a[|b|..] + n)
  {
    if |a| <= |b| { JoinedLonger(a, n, b, m); } else { JoinedLonger(b, m, a, n); }
  }

  lemma JoinedLonger(a: string, n: string, b: string, m: string)
    requires |a| <= |b|
    ensures a + n == b + m <==> a <= b && n == b[|a|..] + m
  {
    if a + n == b + m {
      assert a == (a + n)[..|a|] == (b + m)[..|a|] == b[..|a|];
      assert n == (a + n)[|a|..] == (b + m)[|a|..] == b[|a|..] + m;
    }
    if a <= b {
      assert b == a + b[|a|..];
      assert a + (b[|a|..] + m) == (a + b[|a|..]) + m;
    }
  }

  /** PulseAudio indexes have 32 bits. */
  type PulseId = i: nat | i < 0x1_0000_0000 witness 0

  /** No two devices whose ports have these names share an id. */
  ghost predicate IdsInjective(names: set<string>) {
    forall d1, i1: PulseId, n1, d2, i2: PulseId, n2 | n1 in names && n2 in names &&
      DeviceId(d1, i1, n1) == DeviceId(d2, i2, n2) :: d1 == d2 && i1 == i2 && n1 == n2
  }

  /** A port named like another behind a run of at most nine digits. */
  predicate DigitsBefore(n: string, m: string) {
    exists k :: 1 <= k <= 9 && k <= |n| && AllDigits(n[..k]) && n[k..] == m
  }

  /** Ids tell devices apart exactly when no port is named like another behind one to nine digits. */
  lemma IdsInjectiveExactly(names: set<string>)
    ensures IdsInjective(names) <==> forall n <- names, m <- names :: !DigitsBefore(n, m)
  {
    hide DeviceId, DigitsBefore, RunsTogether;
    if n, m :| n in names && m in names && DigitsBefore(n, m) {
      var j := CollidingIndex(n, m);
      assert DeviceId(Out, 1, n) == DeviceId(Out, j, m);
    }
    if forall n <- names, m <- names :: !DigitsBefore(n, m) {
      forall d1, i1: PulseId, n1, d2, i2: PulseId, n2 | n1 in names && n2 in names &&
        DeviceId(d1, i1, n1) == DeviceId(d2, i2, n2) ensures d1 == d2 && i1 == i2 && n1 == n2
      {
        IdsEqualExactly(d1, i1, n1, d2, i2, n2);
        if RunsTogether(i1, n1, i2, n2) { RunIsShort(i1, n1, i2, n2); }
        if RunsTogether(i2, n2, i1, n1) { RunIsShort(i2, n2, i1, n1); }
      }
    }
  }

  /** The index that reads like index 1 behind which port n starts. */
  lemma CollidingIndex(n: string, m: string) returns (j: PulseId)
    requires DigitsBefore(n, m)
    ensures j != 1 && DeviceId(Out, 1, n) == DeviceId(Out, j, m)
  {
    hide DeviceId, IsDigit;
    var k :| 1 <= k <= 9 && k <= |n| && AllDigits(n[..k]) && n[k..] == m;
    assert n == n[..k] + m;
    j := IndexBehindOne(n[..k]);
    assert ToString(1) == "1";
    IdsEqualExactly(Out, 1, n, Out, j, m);
  }

  lemma IndexBehindOne(run: string) returns (j: PulseId)
    requires AllDigits(run) && 1 <= |run| <= 9
    ensures ToString(j) == ['1'] + run && ToString(j)[1..] == run && j != 1
  {
    var digits := ['1'] + run;
    ToStringOfValue(digits);
    ValueFromOne(digits);
    TenthPowers(|run|);
    j := Value(digits);
    assert |ToString(1)| == 1;
  }

  lemma {:induction false} TenthPowers(k: nat)
    requires k <= 10
    ensures Pow10(k) <= 10_000_000_000 && (k <= 9 ==> Pow10(k) <= 1_000_000_000) &&
        (k == 10 ==> Pow10(k) == 10_000_000_000)
  {
    assert Pow10(10) == 10_000_000_000;
    PowersGrow(k, 10);
    if k <= 9 { PowersGrow(k, 9); }
  }

  lemma {:induction false} PowersGrow(a: nat, b: nat)
    requires a <= b
    ensures Pow10(a) <= Pow10(b)
  {
    if a < b { PowersGrow(a, b - 1); }
  }

  lemma RunIsShort(i: PulseId, n: string, j: PulseId, m: string)
    requires RunsTogether(i, n, j, m)
    ensures DigitsBefore(n, m)
  {
    TenthPowers(10);
    ToStringLength(j, 10);
    var a, b := ToString(i), ToString(j);
    var k := |b| - |a|;
    assert n[..k] == b[|a|..] && n[k..] == m;
    assert AllDigits(n[..k]) by {
      forall x | 0 <= x < k ensures IsDigit(n[..k][x]) { assert n[..k][x] == b[|a| + x]; }
    }
  }

  /** In particular when no port name starts with a digit. */
  lemma IdsInjectiveWithoutDigits(names: set<string>)
    requires forall n <- names :: n == "" || !IsDigit(n[0])
    ensures IdsInjective(names)
  {
    IdsInjectiveExactly(names);
    forall n <- names, m <- names ensures !DigitsBefore(n, m) {
      forall k | 1 <= k <= |n| ensures !AllDigits(n[..k]) { assert n[..k][0] == n[0]; }
    }
  }

  lemma IdsCollide()
    ensures DeviceId(Out, 1, "2") == DeviceId(Out, 12, "")
    ensures DevicePath(Out, 1, "2") != DevicePath(Out, 12, "")
    ensures !IdsInjective({"", "2"})
  {
    assert ToString(12) == ToString(1) + [Digit(2)] == "1" + "2";
    assert DeviceId(Out, 1, "2") == "output" + ("1" + "2");
    assert DeviceId(Out, 12, "") == "output" + "12";
    PathsInjective(Out, 1, "2", Out, 12, "");
    var i, j: PulseId := 1, 12;
    assert DeviceId(Out, i, "2") == DeviceId(Out, j, "");
  }

  // ---------- reports and tables ----------

  datatype Device = Device(index: nat, direction: Direction, portName: string, deviceName: string, name: string,
                           id: string)

  datatype Port = Port(name: string, description: Option<string>)

  /** A sink or source as reported: its name and description, its ports if they have a name, and its active port. */
  datatype Report = Report(index: nat, name: string, description: Option<string>, ports: seq<Option<Port>>,
                           activePort: string)

  datatype Stream = Stream(index: nat, sink: nat, device: string)

  type Devices = map<string, Device>
  type Index = map<(Direction, nat), set<string>>
  type ActivePorts = map<(Direction, nat), string>

  predicate IsReport(report: Report) {
    IsBytes(report.activePort) &&
    forall i | 0 <= i < |report.ports| :: report.ports[i].Some? ==> IsBytes(report.ports[i].value.name)
  }

  /** An en dash in UTF-8 between the descriptions of port and device. */
  const SEPARATOR := " \U{E2}\U{80}\U{93} "

  function DisplayName(device: Option<string>, port: Option<string>): string {
    match (device, port)
    case (None, None) => "Unknown"
    case (None, Some(p)) => p
    case (Some(d), None) => d
    case (Some(d), Some(p)) => p + SEPARATOR + d
  }

  /** The ports a report calls for: its named ports, or the empty one when it has no ports. */
  function Ports(report: Report): seq<Port> {
    if report.ports == [] then [Port("", None)] else Named(report.ports)
  }

  function Named(ports: seq<Option<Port>>): (named: seq<Port>)
    ensures forall p <- named :: Some(p) in ports
  {
    if ports == [] then []
    else
      var last := ports[|ports| - 1];
      Named(ports[..|ports| - 1]) + if last.Some? then [last.value] else []
  }

  function PathsAt(index: Index, d: Direction, i: nat): set<string> {
    if (d, i) in index then index[(d, i)] else {}
  }

  function Scan(devices: Devices, d: Direction, i: nat): set<string> {
    set p <- devices | devices[p].direction == d && devices[p].index == i
  }

  /** A device sits at the path its direction, index and port make, and shows the id they make. */
  predicate Placed(path: string, device: Device) {
    IsBytes(device.portName) && path == DevicePath(device.direction, device.index, device.portName) &&
    device.id == DeviceId(device.direction, device.index, device.portName)
  }

  /** The active ports left when devices go: a port is forgotten when the last device of its index goes. */
  function PortsAfter(ports: ActivePorts, before: Devices, after: Devices): ActivePorts {
    map k <- ports | Scan(before, k.0, k.1) == {} || Scan(after, k.0, k.1) != {} :: ports[k]
  }

  lemma PortsAfterSame(ports: ActivePorts, devices: Devices)
    ensures PortsAfter(ports, devices, devices) == ports
  {
  }

  lemma PortsAfterTwice(ports: ActivePorts, a: Devices, b: Devices, c: Devices)
    requires b.Keys <= a.Keys && (forall p <- b :: b[p] == a[p]) && c.Keys <= b.Keys && forall p <- c :: c[p] == b[p]
    ensures PortsAfter(PortsAfter(ports, a, b), b, c) == PortsAfter(ports, a, c)
  {
    forall k <- ports ensures Scan(c, k.0, k.1) <= Scan(b, k.0, k.1) <= Scan(a, k.0, k.1) {
    }
  }

  predicate PortsAreBytes(ports: ActivePorts) {
    forall k <- ports :: IsBytes(ports[k])
  }

  function PortAt(ports: ActivePorts, k: (Direction, nat)): string {
    if k in ports then ports[k] else ""
  }

  /** Every stream playing to the sink is pointed at the device. */
  function Redirected(streams: map<string, Stream>, sink: nat, device: string): map<string, Stream> {
    map p <- streams :: if streams[p].sink == sink then streams[p].(device := device) else streams[p]
  }

  function StreamPath(index: nat): string {
    BASE + "/Streams/" + ToString(index)
  }

  // ---------- the state and what events do to it ----------

  datatype State = State(devices: Devices, activePorts: ActivePorts, activeOutput: string, activeInput: string,
                         defaultSink: string, defaultSource: string, streams: map<string, Stream>)

  const START := State(map[], map[], "/", "/", "", "", map[])

  datatype Event =
    | Changed(d: Direction, report: Report)
    | Removed(d: Direction, i: nat)
    | StreamReported(index: nat, sink: nat)
    | StreamRemoved(index: nat)
    | ServerInformed(sinkName: string, sourceName: string)

  function Reported(s: State, d: Direction, report: Report): State
    requires IsReport(report)
  {
    PortsHaveBytes(report);
    var key, ports := (d, report.index), Ports(report);
    var put := PutAll(s.devices, d, report, ports);
    var devices := put - (Scan(s.devices, d, report.index) - PathSet(d, report.index, ports));
    State(devices, PortsAfter(s.activePorts[key := report.activePort], put, devices),
          ActiveAll(s.activeOutput, d == Out && s.defaultSink == report.name, d, report, ports),
          ActiveAll(s.activeInput, d == In && s.defaultSource == report.name, d, report, ports),
          s.defaultSink, s.defaultSource,
          if d == Out && PortAt(s.activePorts, key) != report.activePort
          then Redirected(s.streams, report.index, DevicePath(Out, report.index, report.activePort)) else s.streams)
  }

  function IndexRemoved(s: State, d: Direction, i: nat): State {
    var devices := s.devices - Scan(s.devices, d, i);
    s.(devices := devices, activePorts := PortsAfter(s.activePorts, s.devices, devices))
  }

  function StreamUpdated(s: State, index: nat, sink: nat): State
    requires PortsAreBytes(s.activePorts)
  {
    var path := StreamPath(index);
    var device := if (Out, sink) in s.activePorts then DevicePath(Out, sink, s.activePorts[(Out, sink)])
                  else if path in s.streams then s.streams[path].device else "/";
    s.(streams := s.streams[path := Stream(index, sink, device)])
  }

  /** A device of the direction that shows this name and is its index's active port. */
  predicate IsDefault(devices: Devices, ports: ActivePorts, d: Direction, name: string, path: string) {
    path in devices && devices[path].direction == d && devices[path].name == name &&
    (d, devices[path].index) in ports && devices[path].portName == ports[(d, devices[path].index)]
  }

  /** What a new default name makes the active device: one that shows the name, or none. A name already known changes
      nothing. */
  ghost predicate DefaultChosen(devices: Devices, ports: ActivePorts, d: Direction, known: string, name: string,
                                before: string, after: string) {
    if name == known then after == before
    else IsDefault(devices, ports, d, name, after) ||
         (after == "/" && forall p :: !IsDefault(devices, ports, d, name, p))
  }

  ghost predicate Informed(s: State, sinkName: string, sourceName: string, s': State) {
    s' == s.(defaultSink := sinkName, defaultSource := sourceName, activeOutput := s'.activeOutput,
             activeInput := s'.activeInput) &&
    DefaultChosen(s.devices, s.activePorts, In, s.defaultSource, sourceName, s.activeInput, s'.activeInput) &&
    DefaultChosen(s.devices, s.activePorts, Out, s.defaultSink, sinkName, s.activeOutput, s'.activeOutput)
  }

  /** One event. */
  ghost predicate Step(s: State, event: Event, s': State) {
    match event
    case Changed(d, report) => IsReport(report) && s' == Reported(s, d, report)
    case Removed(d, i) => s' == IndexRemoved(s, d, i)
    case StreamReported(index, sink) => PortsAreBytes(s.activePorts) && s' == StreamUpdated(s, index, sink)
    case StreamRemoved(index) => s' == s.(streams := s.streams - {StreamPath(index)})
    case ServerInformed(sinkName, sourceName) => Informed(s, sinkName, sourceName, s')
  }

  /** The states of a run, one before and one after every event. */
  ghost predicate IsRun(states: seq<State>, events: seq<Event>) {
    |states| == |events| + 1 && states[0] == START &&
        forall i | 0 <= i < |events| :: Step(states[i], events[i], states[i + 1])
  }

  // ---------- the registry ----------

  class Registry {
    var devices: Devices
    var pathsByIndex: Index
    var activePorts: ActivePorts
    var activeOutput: string
    var activeInput: string
    var defaultSink: string
    var defaultSource: string
    var streams: map<string, Stream>

    /** The index sets equal a scan of the table, and every device sits at its path. */
    ghost predicate Valid()
      reads this`devices, this`pathsByIndex
    {
      (forall p <- devices :: Placed(p, devices[p])) &&
      forall d: Direction, i: nat :: PathsAt(pathsByIndex, d, i) == Scan(devices, d, i)
    }

    ghost function Current(): State
      reads this
    {
      State(devices, activePorts, activeOutput, activeInput, defaultSink, defaultSource, streams)
    }

    constructor ()
      ensures Valid() && Current() == START
    {
      devices, pathsByIndex, activePorts, streams := map[], map[], map[], map[];
      activeOutput, activeInput, defaultSink, defaultSource := "/", "/", "", "";
    }

    /** Removes a device; an index entry left empty goes, and with it the active port. */
    method RemoveDevice(path: string)
      requires Valid()
      modifies this`devices, this`pathsByIndex, this`activePorts
      ensures Valid() && devices == old(devices) - {path}
      ensures activePorts == PortsAfter(old(activePorts), old(devices), devices)
    {
      hide Scan, Placed;
      PortsAfterSame(activePorts, devices);
      if path !in devices { return; }
      var key := (devices[path].direction, devices[path].index);
      ghost var before, index, ports := devices, pathsByIndex, activePorts;
      if key in pathsByIndex {
        pathsByIndex := pathsByIndex[key := pathsByIndex[key] - {path}];
        if pathsByIndex[key] == {} {
          pathsByIndex := pathsByIndex - {key};
          activePorts := activePorts - {key};
        }
      }
      devices := devices - {path};
      forall d: Direction, i: nat ensures PathsAt(pathsByIndex, d, i) == Scan(devices, d, i) {
        assert PathsAt(index, d, i) == Scan(before, d, i);
        ScanRemoved(before, path, d, i);
      }
      OneForgotten(ports, before, path);
      assert PathsAt(pathsByIndex, key.0, key.1) == Scan(devices, key.0, key.1);
    }

    method RemoveAll(paths: set<string>)
      requires Valid()
      modifies this`devices, this`pathsByIndex, this`activePorts
      ensures Valid() && devices == old(devices) - paths
      ensures activePorts == PortsAfter(old(activePorts), old(devices), devices)
    {
      hide Valid, PortsAfter;
      PortsAfterSame(activePorts, devices);
      var left := paths;
      while left != {}
        invariant left <= paths && Valid() && devices == old(devices) - (paths - left)
        invariant activePorts == PortsAfter(old(activePorts), old(devices), devices)
        decreases left
      {
        var path :| path in left;
        left := left - {path};
        ghost var before := devices;
        RemoveDevice(path);
        PortsAfterTwice(old(activePorts), old(devices), before, devices);
      }
    }

    method RemoveDevicesByIndex(d: Direction, i: nat)
      requires Valid()
      modifies this`devices, this`pathsByIndex, this`activePorts
      ensures Valid() && Current() == IndexRemoved(old(Current()), d, i)
    {
      hide Scan, PortsAfter;
      assert PathsAt(pathsByIndex, d, i) == Scan(devices, d, i);
      PortsAfterSame(activePorts, devices);
      if (d, i) !in pathsByIndex {
        assert devices - {} == devices;
        return;
      }
      RemoveAll(pathsByIndex[(d, i)]);
    }

    /** One reported port: its path joins the index set and its device is written. */
    method PutPort(d: Direction, report: Report, port: Port)
      requires Valid() && IsBytes(port.name)
      modifies this`devices, this`pathsByIndex
      ensures Valid() && devices == Put(old(devices), d, report, port)
    {
      hide DevicePath, DeviceId, Scan, DisplayName, IsBytes;
      var i := report.index;
      var path := DevicePath(d, i, port.name);
      ghost var before, index := devices, pathsByIndex;
      pathsByIndex := pathsByIndex[(d, i) := PathsAt(pathsByIndex, d, i) + {path}];
      devices := devices[path := DeviceOf(d, report, port)];
      if path in before {
        PathsInjective(d, i, port.name, before[path].direction, before[path].index, before[path].portName);
      }
      forall e: Direction, j: nat ensures PathsAt(pathsByIndex, e, j) == Scan(devices, e, j) {
        assert PathsAt(index, e, j) == Scan(before, e, j);
        ScanPut(before, path, devices[path], e, j);
      }
    }

    /** The callback for one port: its device is written, its path is no longer stale, and it becomes the active
        device when it is the active port of the default sink or source. */
    method Visit(d: Direction, report: Report, port: Port, stale: set<string>) returns (stale': set<string>)
      requires Valid() && IsBytes(port.name)
      modifies this`devices, this`pathsByIndex, this`activeOutput, this`activeInput
      ensures Valid() && stale' == stale - {DevicePath(d, report.index, port.name)}
      ensures devices == Put(old(devices), d, report, port)
      ensures activeOutput == ActiveAfter(old(activeOutput), d == Out && defaultSink == report.name, d, report, port)
      ensures activeInput == ActiveAfter(old(activeInput), d == In && defaultSource == report.name, d, report, port)
    {
      hide Valid, DevicePath;
      var path := DevicePath(d, report.index, port.name);
      stale' := stale - {path};
      PutPort(d, report, port);
      if port.name == report.activePort {
        if d == Out && defaultSink == report.name { activeOutput := path; }
        if d == In && defaultSource == report.name { activeInput := path; }
      }
    }

    method VisitPorts(d: Direction, report: Report, stale: set<string>) returns (stale': set<string>)
      requires Valid() && IsReport(report)
      modifies this`devices, this`pathsByIndex, this`activeOutput, this`activeInput
      ensures AllBytes(Ports(report)) && Valid() && stale' == stale - PathSet(d, report.index, Ports(report))
      ensures devices == PutAll(old(devices), d, report, Ports(report))
      ensures activeOutput == ActiveAll(old(activeOutput), d == Out &&
                                        defaultSink == report.name, d, report, Ports(report))
      ensures activeInput == ActiveAll(old(activeInput), d == In &&
                                       defaultSource == report.name, d, report, Ports(report))
    {
      hide Valid, DevicePath, Put, ActiveAfter, PathSet, PutAll, ActiveAll, Named;
      PortsHaveBytes(report);
      stale' := stale;
      NoPorts(old(devices), d, report, old(activeOutput));
      NoPorts(old(devices), d, report, old(activeInput));
      if report.ports == [] {
        var port := Port("", None);
        OneMorePort(old(devices), d, report, [], port, old(activeOutput));
        OneMorePort(old(devices), d, report, [], port, old(activeInput));
        stale' := Visit(d, report, port, stale);
        return;
      }
      var i := 0;
      while i < |report.ports|
        invariant 0 <= i <= |report.ports| && Valid()
        invariant stale' == stale - PathSet(d, report.index, Named(report.ports[..i]))
        invariant devices == PutAll(old(devices), d, report, Named(report.ports[..i]))
        invariant activeOutput ==
            ActiveAll(old(activeOutput), d == Out && defaultSink == report.name, d, report, Named(report.ports[..i]))
        invariant activeInput == ActiveAll(old(activeInput), d == In &&
                                           defaultSource == report.name, d, report, Named(report.ports[..i]))
      {
        ghost var named := Named(report.ports[..i]);
        NamedNext(report.ports, i);
        if report.ports[i].Some? {
          OneMorePort(old(devices), d, report, named, report.ports[i].value, old(activeOutput));
          OneMorePort(old(devices), d, report, named, report.ports[i].value, old(activeInput));
          stale' := Visit(d, report, report.ports[i].value, stale');
        }
        i := i + 1;
      }
      assert report.ports[..|report.ports|] == report.ports;
    }

    /** The streams of a sink follow its active port. */
    method HandleActiveOutputPortChanged(sink: nat, portName: string)
      requires IsBytes(portName)
      modifies this`streams
      ensures streams == Redirected(old(streams), sink, DevicePath(Out, sink, portName))
    {
      hide DevicePath;
      var left := streams.Keys;
      while left != {}
        invariant left <= streams.Keys == old(streams).Keys
        invariant forall p <- streams ::
          (streams[p] == if p in left then old(streams)[p]
           else Redirected(old(streams), sink, DevicePath(Out, sink, portName))[p])
        decreases left
      {
        var path :| path in left;
        left := left - {path};
        if streams[path].sink == sink {
          streams := streams[path := streams[path].(device := DevicePath(Out, sink, portName))];
        }
      }
    }

    /** A sink or source reported: its devices become exactly those of the reported ports, and when a sink's active port
        changed the streams playing to it are pointed at that port. */
    method AddOrUpdateDevice(d: Direction, report: Report)
      requires Valid() && IsReport(report)
      modifies this
      ensures Valid() && Current() == Reported(old(Current()), d, report)
    {
      hide Valid, DevicePath, Scan, Placed, ActiveAll, PathSet, PutAll, Ports, Redirected, PortsAfter;
      PortsHaveBytes(report);
      var key := (d, report.index);
      var stale := PathsAt(pathsByIndex, d, report.index);
      IndexedAs(d, report.index);
      Touch(key);
      if d == Out && PortAt(activePorts, key) != report.activePort {
        HandleActiveOutputPortChanged(report.index, report.activePort);
      }
      activePorts := activePorts[key := report.activePort];
      stale := VisitPorts(d, report, stale);
      RemoveAll(stale);
    }

    /** Reading an index entry for writing creates it. */
    method Touch(key: (Direction, nat))
      requires Valid()
      modifies this`pathsByIndex
      ensures Valid()
    {
      hide Scan, Placed;
      ghost var index := pathsByIndex;
      pathsByIndex := pathsByIndex[key := PathsAt(pathsByIndex, key.0, key.1)];
      forall e: Direction, j: nat ensures PathsAt(pathsByIndex, e, j) == Scan(devices, e, j) {
        assert PathsAt(index, e, j) == Scan(devices, e, j);
      }
    }

    lemma IndexedAs(d: Direction, i: nat)
      requires Valid()
      ensures PathsAt(pathsByIndex, d, i) == Scan(devices, d, i)
    {
    }

    /** A stream reported: its device is the active port of its sink, if that sink is known, and stays what it was
        otherwise. */
    method AddOrUpdateStream(index: nat, sink: nat)
      requires PortsAreBytes(activePorts)
      modifies this`streams
      ensures Current() == StreamUpdated(old(Current()), index, sink)
    {
      hide StreamPath, DevicePath, IsBytes;
      var path := StreamPath(index);
      if path !in streams {
        streams := streams[path := Stream(index, sink, "/")];
      }
      streams := streams[path := streams[path].(index := index, sink := sink)];
      if (Out, sink) in activePorts {
        streams := streams[path := streams[path].(device := DevicePath(Out, sink, activePorts[(Out, sink)]))];
      }
    }

    /** New default names: each looks for a device that shows it. */
    method HandleServerInfo(sinkName: string, sourceName: string)
      modifies this`defaultSink, this`defaultSource, this`activeOutput, this`activeInput
      ensures Informed(old(Current()), sinkName, sourceName, Current())
    {
      hide IsDefault;
      if sourceName != defaultSource {
        defaultSource := sourceName;
        activeInput := FindDefault(In, sourceName);
      }
      if sinkName != defaultSink {
        defaultSink := sinkName;
        activeOutput := FindDefault(Out, sinkName);
      }
    }

    method FindDefault(d: Direction, name: string) returns (path: string)
      ensures IsDefault(devices, activePorts, d, name, path) ||
              (path == "/" && forall p :: !IsDefault(devices, activePorts, d, name, p))
    {
      var found := set p <- devices | IsDefault(devices, activePorts, d, name, p);
      if found == {} {
        forall p ensures !IsDefault(devices, activePorts, d, name, p) {
          assert p !in found;
        }
        return "/";
      }
      path :| path in found;
    }
  }

  lemma ScanAfterRemoval(devices: Devices, d: Direction, i: nat, e: Direction, j: nat)
    ensures Scan(devices - Scan(devices, d, i), e, j) == if e == d && j == i then {} else Scan(devices, e, j)
  {
  }

  lemma ScanEmpty(devices: Devices, d: Direction, i: nat)
    ensures Scan(devices, d, i) != {} <==> exists p <- devices :: devices[p].direction == d && devices[p].index == i
  {
    if p :| p in devices && devices[p].direction == d && devices[p].index == i {
      assert p in Scan(devices, d, i);
    }
  }

  /** Removing an index removes exactly its devices and, if it had any, forgets its active port, and changes nothing
      else. */
  lemma IndexRemovedMeans(s: State, d: Direction, i: nat)
    ensures var s' := IndexRemoved(s, d, i);
            (forall p :: p in s'.devices <==>
               p in s.devices && !(s.devices[p].direction == d && s.devices[p].index == i)) &&
            (forall p <- s'.devices :: s'.devices[p] == s.devices[p]) &&
            s' == s.(devices := s'.devices, activePorts := s'.activePorts) &&
            s'.activePorts == if exists p <- s.devices :: s.devices[p].direction == d && s.devices[p].index == i
                              then s.activePorts - {(d, i)} else s.activePorts
  {
    var s' := IndexRemoved(s, d, i);
    assert forall p :: p in s'.devices <==>
      p in s.devices && !(s.devices[p].direction == d && s.devices[p].index == i);
    hide Scan;
    ScanEmpty(s.devices, d, i);
    forall k: (Direction, nat)
      ensures Scan(s'.devices, k.0, k.1) == if k == (d, i) then {} else Scan(s.devices, k.0, k.1)
    {
      ScanAfterRemoval(s.devices, d, i, k.0, k.1);
    }
  }

  /** The active device is not revised when it is removed: after any removal it names a device exactly when it did
      before and is not a device of that index and direction. */
  lemma ActiveOutlivesDevice(s: State, d: Direction, i: nat)
    ensures var s' := IndexRemoved(s, d, i);
            s'.activeOutput == s.activeOutput && s'.activeInput == s.activeInput &&
            forall active <- {s.activeOutput, s.activeInput} :: active in s'.devices <==>
              active in s.devices && (s.devices[active].direction != d || s.devices[active].index != i)
  {
    hide PortsAfter;
  }

  method Handle(r: Registry, event: Event)
    requires r.Valid() && PortsAreBytes(r.activePorts) && (event.Changed? ==> IsReport(event.report))
    modifies r
    ensures r.Valid() && PortsAreBytes(r.activePorts) && Step(old(r.Current()), event, r.Current())
  {
    hide Scan, Placed, IsReport, Reported, StreamUpdated, Registry.Valid;
    ghost var before := r.Current();
    match event {
      case Changed(d, report) => r.AddOrUpdateDevice(d, report);
      case Removed(d, index) => r.RemoveDevicesByIndex(d, index);
      case StreamReported(index, sink) => r.AddOrUpdateStream(index, sink);
      case StreamRemoved(index) => r.streams := r.streams - {StreamPath(index)};
      case ServerInformed(sinkName, sourceName) => r.HandleServerInfo(sinkName, sourceName);
    }
    BytesKept(before, event, r.Current());
  }

  /** A run handles its events one after the other, and after every event the index sets equal a scan of the table. */
  method Run(events: seq<Event>) returns (r: Registry, ghost states: seq<State>)
    requires forall i | 0 <= i < |events| :: events[i].Changed? ==> IsReport(events[i].report)
    ensures r.Valid() && IsRun(states, events) && states[|events|] == r.Current()
  {
    hide Registry.Valid, IsReport, Step, PortsAreBytes;
    r := new Registry();
    states := [r.Current()];
    NoBytes();
    for i := 0 to |events|
      invariant r.Valid() && PortsAreBytes(r.activePorts)
      invariant |states| == i + 1 && states[0] == START && states[i] == r.Current()
      invariant forall j | 0 <= j < i :: Step(states[j], events[j], states[j + 1])
      modifies r
    {
      Handle(r, events[i]);
      states := states + [r.Current()];
    }
  }

  lemma NoBytes()
    ensures PortsAreBytes(map[])
  {
  }

  lemma BytesKept(s: State, event: Event, s': State)
    requires PortsAreBytes(s.activePorts) && Step(s, event, s')
    ensures PortsAreBytes(s'.activePorts)
  {
    hide IsBytes, PutAll, PathSet, DevicePath, ActiveAll, Scan;
  }

  // ---------- the default by name ----------

  /** The active port of a sink or source the server calls by this name. */
  predicate IsNamed(devices: Devices, ports: ActivePorts, d: Direction, name: string, path: string) {
    path in devices && devices[path].direction == d && devices[path].deviceName == name &&
    (d, devices[path].index) in ports && devices[path].portName == ports[(d, devices[path].index)]
  }

  /** Every device a new default name can make active is the active port of the sink or source of that name exactly
      when some active port shows the name, and every active port that shows it belongs to the sink or source of that
      name. */
  lemma DefaultIsNamedExactly(devices: Devices, ports: ActivePorts, d: Direction, known: string, name: string,
                              before: string)
    requires name != known && "/" !in devices
    ensures (forall after | DefaultChosen(devices, ports, d, known, name, before, after) ::
               IsNamed(devices, ports, d, name, after)) <==>
            (exists p :: IsDefault(devices, ports, d, name, p)) &&
            forall p | IsDefault(devices, ports, d, name, p) :: devices[p].deviceName == name
  {
    if p :| IsDefault(devices, ports, d, name, p) && devices[p].deviceName != name {
      assert DefaultChosen(devices, ports, d, known, name, before, p) && !IsNamed(devices, ports, d, name, p);
    }
    if forall p :: !IsDefault(devices, ports, d, name, p) {
      assert DefaultChosen(devices, ports, d, known, name, before, "/") && !IsNamed(devices, ports, d, name, "/");
    }
  }

  const SPEAKERS := Report(0, "alsa_output.x", Some("Speakers"), [], "")

  /** A sink with a description is reported and then becomes the default: no device is active, although the sink's is
      there. */
  lemma NamedSinkNotFound(s: State)
    requires Informed(Reported(START, Out, SPEAKERS), "alsa_output.x", "", s)
    ensures IsReport(SPEAKERS) && s.activeOutput == "/" && s.defaultSink == "alsa_output.x"
    ensures IsNamed(s.devices, s.activePorts, Out, "alsa_output.x", DevicePath(Out, 0, ""))
  {
    hide DevicePath, DeviceId;
    var port, reported := Port("", None), Reported(START, Out, SPEAKERS);
    PortsHaveBytes(SPEAKERS);
    ReportedMeans(START, Out, SPEAKERS);
    assert Ports(SPEAKERS) == [port];
    assert WrittenAs(reported.devices, Out, SPEAKERS, [port], 0);
    assert PathSet(Out, 0, [port]) == {DevicePath(Out, 0, "")};
    assert reported.devices.Keys == {DevicePath(Out, 0, "")};
    assert DisplayName(Some("Speakers"), None) == "Speakers" != "alsa_output.x";
  }

  // ---------- streams on runs ----------

  /** Streams of a sink with a named active port are at that port. */
  ghost predicate StreamsFollow(s: State) {
    PortsAreBytes(s.activePorts) &&
    forall p <- s.streams :: Follows(s.streams[p], s.activePorts)
  }

  predicate Follows(stream: Stream, ports: ActivePorts)
    requires PortsAreBytes(ports)
  {
    PortAt(ports, (Out, stream.sink)) != "" ==>
      stream.device == DevicePath(Out, stream.sink, ports[(Out, stream.sink)])
  }

  lemma StepKeepsFollowing(s: State, event: Event, s': State)
    requires StreamsFollow(s) && Step(s, event, s')
    ensures StreamsFollow(s')
  {
    hide IsBytes, PutAll, PathSet, DevicePath, ActiveAll, Scan, StreamPath, PortsAreBytes;
    BytesKept(s, event, s');
    forall p <- s'.streams ensures Follows(s'.streams[p], s'.activePorts) {
      if p in s.streams { assert Follows(s.streams[p], s.activePorts); }
    }
  }

  /** After every event of every run, the streams of a sink with a named active port are at that port. */
  lemma {:induction false} RunsKeepFollowing(states: seq<State>, events: seq<Event>, k: nat)
    requires IsRun(states, events) && k <= |events|
    ensures StreamsFollow(states[k])
  {
    hide Step;
    if k > 0 {
      RunsKeepFollowing(states, events, k - 1);
      StepKeepsFollowing(states[k - 1], events[k - 1], states[k]);
    }
  }

  // ---------- what a report does to the table ----------

  predicate AllBytes(ports: seq<Port>) {
    forall p <- ports :: IsBytes(p.name)
  }

  lemma PortsHaveBytes(report: Report)
    requires IsReport(report)
    ensures AllBytes(Ports(report))
    ensures forall i | 0 <= i <= |report.ports| :: AllBytes(Named(report.ports[..i]))
  {
    forall i | 0 <= i <= |report.ports| ensures AllBytes(Named(report.ports[..i])) {
      forall p <- Named(report.ports[..i]) ensures IsBytes(p.name) {
        assert Some(p) in report.ports[..i];
      }
    }
    assert report.ports[..|report.ports|] == report.ports;
  }

  function PathSet(d: Direction, i: nat, ports: seq<Port>): set<string>
    requires AllBytes(ports)
  {
    set p <- ports :: DevicePath(d, i, p.name)
  }

  function DeviceOf(d: Direction, report: Report, port: Port): Device {
    Device(report.index, d, port.name, report.name, DisplayName(report.description, port.description),
           DeviceId(d, report.index, port.name))
  }

  function Put(devices: Devices, d: Direction, report: Report, port: Port): Devices
    requires IsBytes(port.name)
  {
    devices[DevicePath(d, report.index, port.name) := DeviceOf(d, report, port)]
  }

  function PutAll(devices: Devices, d: Direction, report: Report, ports: seq<Port>): Devices
    requires AllBytes(ports)
  {
    if ports == [] then devices
    else Put(PutAll(devices, d, report, ports[..|ports| - 1]), d, report, ports[|ports| - 1])
  }

  function ActiveAfter(active: string, isDefault: bool, d: Direction, report: Report, port: Port): string
    requires IsBytes(port.name)
  {
    if isDefault && port.name == report.activePort then DevicePath(d, report.index, port.name) else active
  }

  /** The active device after the ports were visited: the default's active port if it was among them. */
  function ActiveAll(active: string, isDefault: bool, d: Direction, report: Report, ports: seq<Port>): string
    requires AllBytes(ports)
  {
    if ports == [] then active
    else ActiveAfter(ActiveAll(active, isDefault, d, report, ports[..|ports| - 1]), isDefault, d, report,
                     ports[|ports| - 1])
  }

  lemma NamedNext(ports: seq<Option<Port>>, i: nat)
    requires i < |ports|
    ensures Named(ports[..i + 1]) == Named(ports[..i]) + if ports[i].Some? then [ports[i].value] else []
    ensures Named(ports[..i]) + [] == Named(ports[..i])
  {
    assert ports[..i + 1][..i] == ports[..i];
  }

  lemma NoPorts(devices: Devices, d: Direction, report: Report, active: string)
    ensures PathSet(d, report.index, []) == {} && PutAll(devices, d, report, []) == devices
    ensures forall isDefault :: ActiveAll(active, isDefault, d, report, []) == active
    ensures Named([]) == []
  {
  }

  lemma OneMorePort(devices: Devices, d: Direction, report: Report, ports: seq<Port>, p: Port, active: string)
    requires AllBytes(ports) && IsBytes(p.name)
    ensures AllBytes(ports + [p])
    ensures PathSet(d, report.index, ports + [p]) ==
        PathSet(d, report.index, ports) + {DevicePath(d, report.index, p.name)}
    ensures PutAll(devices, d, report, ports + [p]) == Put(PutAll(devices, d, report, ports), d, report, p)
    ensures forall isDefault :: ActiveAll(active, isDefault, d, report, ports + [p]) ==
                                ActiveAfter(ActiveAll(active, isDefault, d, report, ports), isDefault, d, report, p)
    ensures [] + [p] == [p]
  {
    hide DevicePath, Put, ActiveAfter, IsBytes, PathSet;
    OneMorePath(d, report.index, ports, p);
    assert (ports + [p])[..|ports|] == ports;
  }

  lemma OneMorePath(d: Direction, i: nat, ports: seq<Port>, p: Port)
    requires AllBytes(ports) && IsBytes(p.name)
    ensures AllBytes(ports + [p]) && PathSet(d, i, ports + [p]) == PathSet(d, i, ports) + {DevicePath(d, i, p.name)}
  {
    hide DevicePath, IsBytes;
    var all := ports + [p];
    forall q <- PathSet(d, i, ports) ensures q in PathSet(d, i, all) {
      var x :| x in ports && q == DevicePath(d, i, x.name);
      assert x in all;
    }
    assert p in all;
  }

  predicate NamesPort(ports: seq<Port>, name: string) {
    exists p <- ports :: p.name == name
  }

  lemma {:induction false} ActiveAllIs(active: string, isDefault: bool, d: Direction, report: Report, ports: seq<Port>)
    requires AllBytes(ports) && IsBytes(report.activePort)
    ensures ActiveAll(active, isDefault, d, report, ports) ==
            if isDefault && NamesPort(ports, report.activePort) then DevicePath(d, report.index, report.activePort)
            else active
    decreases |ports|
  {
    hide DevicePath;
    if ports != [] {
      ActiveAllIs(active, isDefault, d, report, ports[..|ports| - 1]);
      assert ports == ports[..|ports| - 1] + [ports[|ports| - 1]];
    }
  }

  /** A device shows the port: its place, the name the server gives its sink or source, its id, and the descriptions of
      the port and of the device, the port's first, as far as they are given. */
  ghost predicate ShowsPort(device: Device, d: Direction, report: Report, port: Port) {
    device.direction == d && device.index == report.index && device.portName == port.name &&
    device.deviceName == report.name && device.id == DeviceId(d, report.index, port.name) &&
    (report.description.Some? && port.description.Some? ==>
       device.name == port.description.value + SEPARATOR + report.description.value) &&
    (report.description.Some? && port.description.None? ==> device.name == report.description.value) &&
    (report.description.None? && port.description.Some? ==> device.name == port.description.value) &&
    (report.description.None? && port.description.None? ==> device.name == "Unknown")
  }

  lemma DeviceShowsPort(d: Direction, report: Report, port: Port)
    ensures ShowsPort(DeviceOf(d, report, port), d, report, port)
  {
    hide DeviceId;
  }

  /** The device written at a port's path: that of the last port of the name. */
  ghost predicate WrittenAs(devices: Devices, d: Direction, report: Report, ports: seq<Port>, k: nat)
    requires AllBytes(ports) && k < |ports|
  {
    var path := DevicePath(d, report.index, ports[k].name);
    (forall j | k < j < |ports| :: ports[j].name != ports[k].name) ==>
      path in devices && devices[path] == DeviceOf(d, report, ports[k])
  }

  /** The same in terms of what the device shows. */
  ghost predicate ShownAt(devices: Devices, d: Direction, report: Report, ports: seq<Port>, k: nat)
    requires AllBytes(ports) && k < |ports|
  {
    var path := DevicePath(d, report.index, ports[k].name);
    (forall j | k < j < |ports| :: ports[j].name != ports[k].name) ==>
      path in devices && ShowsPort(devices[path], d, report, ports[k])
  }

  lemma {:induction false} PutAllFacts(devices: Devices, d: Direction, report: Report, ports: seq<Port>)
    requires AllBytes(ports)
    ensures var put := PutAll(devices, d, report, ports);
            put.Keys == devices.Keys + PathSet(d, report.index, ports) &&
            (forall p <- devices :: p !in PathSet(d, report.index, ports) ==> put[p] == devices[p]) &&
            (forall p <- PathSet(d, report.index, ports) :: put[p].direction == d && put[p].index == report.index)
    decreases |ports|
  {
    hide DevicePath, DeviceId, DisplayName, PathSet, PutAll, ActiveAll;
    NoPorts(devices, d, report, "");
    if ports != [] {
      var init, last := ports[..|ports| - 1], ports[|ports| - 1];
      PutAllFacts(devices, d, report, init);
      OneMorePort(devices, d, report, init, last, "");
      assert ports == init + [last];
    }
  }

  lemma {:induction false} AllWritten(devices: Devices, d: Direction, report: Report, ports: seq<Port>, k: nat)
    requires AllBytes(ports) && k < |ports|
    ensures WrittenAs(PutAll(devices, d, report, ports), d, report, ports, k)
    decreases |ports|
  {
    hide DevicePath, DeviceOf;
    var init, last := ports[..|ports| - 1], ports[|ports| - 1];
    if k < |init| {
      AllWritten(devices, d, report, init, k);
      assert ports[k] == init[k] && forall j | k < j < |init| :: ports[j] == init[j];
      PathsInjective(d, report.index, ports[k].name, d, report.index, last.name);
    }
  }

  /** A device of the reported ports is never stale. */
  lemma StaysWritten(devices: Devices, d: Direction, report: Report, ports: seq<Port>, gone: set<string>, k: nat)
    requires AllBytes(ports) && k < |ports| && WrittenAs(devices, d, report, ports, k)
    requires gone !! PathSet(d, report.index, ports)
    ensures ShownAt(devices - gone, d, report, ports, k)
  {
    hide DevicePath, DeviceOf, ShowsPort;
    DeviceShowsPort(d, report, ports[k]);
    assert DevicePath(d, report.index, ports[k].name) in PathSet(d, report.index, ports);
  }

  /** What is left for the index of a report once the stale devices are gone. */
  lemma FinalScan(before: Devices, put: Devices, d: Direction, report: Report, ports: seq<Port>)
    requires AllBytes(ports) && put == PutAll(before, d, report, ports)
    ensures var after, expected := put - (Scan(before, d, report.index) - PathSet(d, report.index, ports)),
                                   PathSet(d, report.index, ports);
            Scan(after, d, report.index) == expected &&
                after.Keys == before.Keys - Scan(before, d, report.index) + expected
  {
    hide DevicePath, DeviceId, PutAll;
    PutAllFacts(before, d, report, ports);
  }

  /** What a report leaves: the devices of its index are exactly those of the reported ports, each written anew, every
      other device is untouched, and the active device is the default's active port if that port was reported. */
  lemma ReportedMeans(s: State, d: Direction, report: Report)
    requires IsReport(report)
    ensures var s', ports, i := Reported(s, d, report), Ports(report), report.index;
            AllBytes(ports) && Scan(s'.devices, d, i) == PathSet(d, i, ports) &&
            s'.devices.Keys == s.devices.Keys - Scan(s.devices, d, i) + PathSet(d, i, ports) &&
            (forall k | 0 <= k < |ports| :: ShownAt(s'.devices, d, report, ports, k)) &&
            (forall p <- s'.devices :: p !in PathSet(d, i, ports) ==>
             p in s.devices && s'.devices[p] == s.devices[p]) &&
            (ports != [] ==> PortAt(s'.activePorts, (d, i)) == report.activePort) &&
            var path, named := DevicePath(d, i, report.activePort), NamesPort(ports, report.activePort);
            s'.activeOutput == (if d == Out && s.defaultSink == report.name && named then path else s.activeOutput) &&
            s'.activeInput == if d == In && s.defaultSource == report.name && named then path else s.activeInput
  {
    hide DevicePath, DeviceId, PutAll, Ports, ActiveAll, IsBytes, WrittenAs, ShownAt;
    PortsHaveBytes(report);
    var ports := Ports(report);
    var stale := Scan(s.devices, d, report.index) - PathSet(d, report.index, ports);
    PutAllFacts(s.devices, d, report, ports);
    FinalScan(s.devices, PutAll(s.devices, d, report, ports), d, report, ports);
    ActiveAllIs(s.activeOutput, d == Out && s.defaultSink == report.name, d, report, ports);
    ActiveAllIs(s.activeInput, d == In && s.defaultSource == report.name, d, report, ports);
    forall k | 0 <= k < |ports| ensures ShownAt(PutAll(s.devices, d, report, ports) - stale, d, report, ports, k) {
      AllWritten(s.devices, d, report, ports, k);
      StaysWritten(PutAll(s.devices, d, report, ports), d, report, ports, stale, k);
    }
    if ports != [] { assert DevicePath(d, report.index, ports[0].name) in PathSet(d, report.index, ports); }
    hide PathSet, Scan;
  }

  /** After a sink's report all its streams are at its active port exactly when the port's name is new to the registry
      or they were there already. The name of a sink not known yet counts as empty, so a sink without ports takes over
      no stream that was reported before it. */
  lemma StreamsMovedExactly(s: State, report: Report)
    requires IsReport(report)
    ensures var i, path := report.index, DevicePath(Out, report.index, report.activePort);
            AllAt(Reported(s, Out, report).streams, i, path) <==>
            PortAt(s.activePorts, (Out, i)) != report.activePort || AllAt(s.streams, i, path)
  {
    hide DevicePath, PutAll, Ports, ActiveAll, IsBytes;
    PortsHaveBytes(report);
  }

  predicate AllAt(streams: map<string, Stream>, sink: nat, device: string) {
    forall p <- streams | streams[p].sink == sink :: streams[p].device == device
  }

  /** A stream reported before its sink, and the sink without ports: the stream stays without a device. */
  lemma EarlyStreamLeftBehind()
    ensures var sink := Report(0, "s", None, [], "");
            var streamed := StreamUpdated(START, 7, 0);
            IsReport(sink) && var s := Reported(streamed, Out, sink);
            DevicePath(Out, 0, "") in s.devices && StreamPath(7) in s.streams && s.streams[StreamPath(7)].device == "/"
  {
    hide DevicePath, StreamPath;
    var sink := Report(0, "s", None, [], "");
    PortsHaveBytes(sink);
    ReportedMeans(StreamUpdated(START, 7, 0), Out, sink);
    assert Ports(sink) == [Port("", None)];
    assert DevicePath(Out, 0, Ports(sink)[0].name) in PathSet(Out, 0, Ports(sink));
  }

  /** The ids of all devices in a table are different when no port name starts with a digit. */
  lemma IdsTellDevicesApart(r: Registry, p: string, q: string)
    requires r.Valid() && p in r.devices && q in r.devices
    requires forall p <- r.devices :: r.devices[p].index < 0x1_0000_0000
    requires forall p <- r.devices :: r.devices[p].portName == "" || !IsDigit(r.devices[p].portName[0])
    ensures r.devices[p].id == r.devices[q].id <==> p == q
  {
    hide DeviceId, DevicePath, IsBytes, IsDigit;
    IdsInjectiveWithoutDigits(set p <- r.devices :: r.devices[p].portName);
    assert Placed(p, r.devices[p]) && Placed(q, r.devices[q]);
    var i, j: PulseId := r.devices[p].index, r.devices[q].index;
    assert DeviceId(r.devices[p].direction, i, r.devices[p].portName) == r.devices[p].id;
    assert DeviceId(r.devices[q].direction, j, r.devices[q].portName) == r.devices[q].id;
  }

  lemma OneForgotten(ports: ActivePorts, devices: Devices, path: string)
    requires path in devices
    ensures var key, after := (devices[path].direction, devices[path].index), devices - {path};
            PortsAfter(ports, devices, after) == if Scan(after, key.0, key.1) == {} then ports - {key} else ports
  {
    hide Scan;
    var key, after := (devices[path].direction, devices[path].index), devices - {path};
    forall k <- ports ensures k == key || Scan(after, k.0, k.1) == Scan(devices, k.0, k.1) {
      ScanRemoved(devices, path, k.0, k.1);
    }
    ScanRemoved(devices, path, key.0, key.1);
  }

  lemma ScanRemoved(devices: Devices, path: string, d: Direction, i: nat)
    requires path in devices
    ensures Scan(devices - {path}, d, i) == Scan(devices, d, i) - {path}
    ensures path in Scan(devices, d, i) <==> devices[path].direction == d && devices[path].index == i
  {
  }

  lemma ScanPut(devices: Devices, path: string, device: Device, d: Direction, i: nat)
    requires path in devices ==> devices[path].direction == device.direction && devices[path].index == device.index
    ensures Scan(devices[path := device], d, i) ==
            Scan(devices, d, i) + if device.direction == d && device.index == i then {path} else {}
  {
  }
}
