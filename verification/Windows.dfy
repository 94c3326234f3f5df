/**
  Endpoint windows: what one event or packet adds to a window, which window it goes to, the numbers a
  window is stored with, and its weak label. A window's running totals form a commutative monoid.
*/
module Windows {
  import opened Common

  /** The feature counters that go up by one, in three groups. */
  datatype Counters = Counters(eventCount: nat, packetCount: nat, loginFailures: nat, loginSuccesses: nat,
                               suricataAlerts: nat, dionaeaConnections: nat, networkConnections: nat)

  datatype CommandCounters = CommandCounters(commands: nat, downloadCommands: nat, reverseShells: nat,
                                             persistenceAttempts: nat, scannerCommands: nat)

  datatype EbpfCounters = EbpfCounters(ebpfEventCount: nat, processExecs: nat, processFanout: nat, shellExecs: nat,
                                       scriptExecs: nat, downloadToolExecs: nat, outboundConnects: nat,
                                       privilegeChanges: nat, tempFileWrites: nat, sensitiveFileWrites: nat)

  const NO_COUNTS: Counters := Counters(0, 0, 0, 0, 0, 0, 0)
  const NO_COMMANDS: CommandCounters := CommandCounters(0, 0, 0, 0, 0)
  const NO_EBPF: EbpfCounters := EbpfCounters(0, 0, 0, 0, 0, 0, 0, 0, 0, 0)

  function AddCounters(a: Counters, b: Counters): Counters {
    Counters(a.eventCount + b.eventCount, a.packetCount + b.packetCount, a.loginFailures + b.loginFailures,
             a.loginSuccesses + b.loginSuccesses, a.suricataAlerts + b.suricataAlerts,
             a.dionaeaConnections + b.dionaeaConnections, a.networkConnections + b.networkConnections)
  }

  function AddCommands(a: CommandCounters, b: CommandCounters): CommandCounters {
    CommandCounters(a.commands + b.commands, a.downloadCommands + b.downloadCommands,
                    a.reverseShells + b.reverseShells, a.persistenceAttempts + b.persistenceAttempts,
                    a.scannerCommands + b.scannerCommands)
  }

  function AddEbpf(a: EbpfCounters, b: EbpfCounters): EbpfCounters {
    EbpfCounters(a.ebpfEventCount + b.ebpfEventCount, a.processExecs + b.processExecs,
                 a.processFanout + b.processFanout, a.shellExecs + b.shellExecs, a.scriptExecs + b.scriptExecs,
                 a.downloadToolExecs + b.downloadToolExecs, a.outboundConnects + b.outboundConnects,
                 a.privilegeChanges + b.privilegeChanges, a.tempFileWrites + b.tempFileWrites,
                 a.sensitiveFileWrites + b.sensitiveFileWrites)
  }

  function One(condition: bool): nat {
    if condition then 1 else 0
  }

  datatype Source = Cowrie | Suricata | Dionaea | Zeek | Ebpf | OtherSource

  /** The outcomes of the token and path tests on an event's texts. */
  datatype Tests = Tests(loginFailed: bool, loginSuccess: bool, isAlert: bool,
                         downloadToken: bool, reverseShellToken: bool, persistenceToken: bool, scannerToken: bool,
                         loopback: bool, shell: bool, scriptRuntime: bool, downloadTool: bool,
                         processExec: bool, networkConnect: bool, privilegeChange: bool, containerRuntime: bool,
                         fileAccess: bool, writeAccess: bool, tempPath: bool, sensitivePath: bool)

  datatype Event = Event(source: Source, eventType: string, timestamp: Option<real>,
                         srcIp: Option<string>, destIp: Option<string>, destPort: Option<int>,
                         protocol: Option<string>, command: Option<string>, url: Option<string>,
                         domain: Option<string>, hashes: set<string>, host: Option<string>, binary: Option<string>,
                         sentBytes: int, receivedBytes: int, duration: real, tests: Tests)

  datatype Packet = Packet(timestamp: Option<real>, srcIp: string, destIp: string, destPort: Option<int>,
                           protocol: string, length: int)

  /** The window builder takes events or packets. */
  datatype Item = OfEvent(event: Event) | OfPacket(packet: Packet)

  // ----- which window -----

  datatype Role = Inbound | Outbound | Internal | UnknownRole | HostRole

  datatype Key = Key(endpoint: string, role: Role, start: int)

  /** The address tests: membership of the protected networks (if any are given) and private addresses. */
  datatype Policy = Policy(hasNetworks: bool, inNetworks: string -> bool, likelyInternal: string -> bool)

  predicate Present(text: Option<string>) {
    text.Some? && text.value != ""
  }

  function SelectEndpoint(src: Option<string>, dest: Option<string>, policy: Policy): Option<(string, Role)> {
    if policy.hasNetworks then
      var srcProtected := Present(src) && policy.inNetworks(src.value);
      var destProtected := Present(dest) && policy.inNetworks(dest.value);
      if srcProtected && destProtected then Some((src.value, Internal))
      else if srcProtected then Some((src.value, Outbound))
      else if destProtected then Some((dest.value, Inbound))
      else None
    else if Present(dest) && policy.likelyInternal(dest.value) then Some((dest.value, Inbound))
    else if Present(src) && policy.likelyInternal(src.value) then Some((src.value, Outbound))
    else if Present(dest) then Some((dest.value, Inbound))
    else if Present(src) then Some((src.value, UnknownRole))
    else None
  }

  function SelectItemEndpoint(item: Item, policy: Policy): Option<(string, Role)> {
    match item
    case OfPacket(p) => SelectEndpoint(Some(p.srcIp), Some(p.destIp), policy)
    case OfEvent(e) =>
      var selected := SelectEndpoint(e.srcIp, e.destIp, policy);
      if selected.Some? then selected
      else if e.source == Ebpf && Present(e.host) then
        Some((e.host.value, if Present(e.destIp) && !Present(e.srcIp) then Outbound else HostRole))
      else None
  }

  function TimeOf(item: Item): real {
    var t := if item.OfEvent? then item.event.timestamp else item.packet.timestamp;
    if t.Some? then t.value else 0.0
  }

  function WindowStart(time: real, seconds: int): int
    requires seconds > 0
  {
    Trunc(time) / seconds * seconds
  }

  /** The window that an item goes to, if an endpoint is selected for it. */
  function KeyOf(item: Item, policy: Policy, seconds: int): Option<Key>
    requires seconds > 0
  {
    var selected := SelectItemEndpoint(item, policy);
    if selected.None? then None
    else Some(Key(selected.value.0, selected.value.1, WindowStart(TimeOf(item), seconds)))
  }

  // ----- what an item adds -----

  datatype Tally = Tally(sourceEvents: nat, counters: Counters, commands: CommandCounters,
                         ebpf: EbpfCounters, bytesIn: int, bytesOut: int, duration: real,
                         peers: set<string>, destPorts: set<int>, protocols: set<string>, eventTypes: set<string>,
                         urls: set<string>, domains: set<string>, hashes: set<string>, binaries: set<string>)

  const ZERO: Tally := Tally(0, NO_COUNTS, NO_COMMANDS, NO_EBPF, 0, 0, 0.0, {}, {}, {}, {}, {}, {}, {}, {})

  function Add(a: Tally, b: Tally): Tally {
    Tally(a.sourceEvents + b.sourceEvents, AddCounters(a.counters, b.counters), AddCommands(a.commands, b.commands),
          AddEbpf(a.ebpf, b.ebpf), a.bytesIn + b.bytesIn, a.bytesOut + b.bytesOut,
          a.duration + b.duration, a.peers + b.peers, a.destPorts + b.destPorts, a.protocols + b.protocols,
          a.eventTypes + b.eventTypes, a.urls + b.urls, a.domains + b.domains, a.hashes + b.hashes,
          a.binaries + b.binaries)
  }

  function Given(text: Option<string>): set<string> {
    if Present(text) then {text.value} else {}
  }

  function GivenPort(port: Option<int>): set<int> {
    if port.Some? then {port.value} else {}
  }

  /** What one event counts, by its source. */
  function EventCounters(e: Event): Counters {
    Counters(1, 0, One(e.source == Cowrie && e.tests.loginFailed), One(e.source == Cowrie && e.tests.loginSuccess),
             One(e.source == Suricata && e.tests.isAlert), One(e.source == Dionaea), One(e.source == Zeek))
  }

  /** What its command counts. A loopback download seen by the eBPF sensor is not a download. */
  function EventCommands(e: Event): CommandCounters {
    if !Present(e.command) then NO_COMMANDS
    else
      CommandCounters(1, One(e.tests.downloadToken && !(e.source == Ebpf && e.tests.loopback)),
                      One(e.tests.reverseShellToken), One(e.tests.persistenceToken), One(e.tests.scannerToken))
  }

  /** What an eBPF event counts. Privilege changes of a container runtime are left out. */
  function EventEbpf(e: Event): EbpfCounters {
    if e.source != Ebpf then NO_EBPF
    else
      var t := e.tests;
      var write := t.fileAccess && t.writeAccess;
      EbpfCounters(1, One(t.processExec), One(t.processExec), One(t.shell), One(t.scriptRuntime),
                   One(t.downloadTool && !t.loopback), One(t.networkConnect),
                   One(t.privilegeChange && !t.containerRuntime),
                   One(write && t.tempPath), One(write && t.sensitivePath))
  }

  /** Outgoing and incoming bytes, seen from the endpoint. */
  function DirectionalBytes(e: Event, endpoint: string): (int, int) {
    if e.srcIp == Some(endpoint) then (e.sentBytes, e.receivedBytes)
    else if e.destIp == Some(endpoint) then (e.receivedBytes, e.sentBytes)
    else (0, e.sentBytes + e.receivedBytes)
  }

  function EventPeers(e: Event, endpoint: string): set<string> {
    (Given(e.srcIp) + Given(e.destIp)) - {endpoint}
  }

  function EventTally(e: Event, endpoint: string): Tally {
    var (bytesOut, bytesIn) := DirectionalBytes(e, endpoint);
    Tally(1, EventCounters(e), EventCommands(e), EventEbpf(e), bytesIn, bytesOut, e.duration,
          EventPeers(e, endpoint), GivenPort(e.destPort), Given(e.protocol), {e.eventType}, Given(e.url),
          Given(e.domain), e.hashes, if e.source == Ebpf then Given(e.binary) else {})
  }

  function PacketTally(p: Packet, endpoint: string): Tally {
    var outgoing := p.srcIp == endpoint;
    Tally(0, NO_COUNTS.(packetCount := 1), NO_COMMANDS, NO_EBPF,
          if outgoing then 0 else p.length, if outgoing then p.length else 0, 0.0,
          ({p.srcIp} + {p.destIp}) - {endpoint}, GivenPort(p.destPort), {p.protocol},
          {}, {}, {}, {}, {})
  }

  function ItemTally(item: Item, endpoint: string): Tally {
    match item
    case OfEvent(e) => EventTally(e, endpoint)
    case OfPacket(p) => PacketTally(p, endpoint)
  }

  /** Where each item goes, as one function. */
  function Route(policy: Policy, seconds: int): Item -> Option<Key>
    requires seconds > 0
  {
    item => KeyOf(item, policy, seconds)
  }

  /** Where each item goes and what it adds there. */
  function Deal(route: Item -> Option<Key>): Item -> Option<(Key, Tally)> {
    item =>
      var key := route(item);
      if key.None? then None else Some((key.value, ItemTally(item, key.value.endpoint)))
  }

  function Plus(): (Tally, Tally) -> Tally {
    (a: Tally, b: Tally) => Add(a, b)
  }

  lemma AddCommutes(a: Tally, b: Tally)
    ensures Add(a, b) == Add(b, a)
  {}

  lemma AddAssociates(a: Tally, b: Tally, c: Tally)
    ensures Add(Add(a, b), c) == Add(a, Add(b, c))
  {}

  lemma AddZero(a: Tally)
    ensures Add(ZERO, a) == a && Add(a, ZERO) == a
  {
    NoUnion(a.peers);
    NoUnion(a.destPorts);
    NoUnion(a.protocols);
    NoUnion(a.eventTypes);
    NoUnion(a.urls);
    NoUnion(a.domains);
    NoUnion(a.hashes);
    NoUnion(a.binaries);
  }

  lemma NoUnion<T>(s: set<T>)
    ensures {} + s == s && s + {} == s
  {}

  // ----- the stored features -----

  /** The eight features that are sizes of sets. */
  datatype Sizes = Sizes(uniquePeers: nat, uniqueDestPorts: nat, uniqueProtocols: nat, uniqueEventTypes: nat,
                         urlCount: nat, domainCount: nat, hashCount: nat, uniqueBinaries: nat)

  datatype Features = Features(counters: Counters, commands: CommandCounters, ebpf: EbpfCounters, bytesIn: int,
                               bytesOut: int, duration: real, sizes: Sizes)

  function SizesOf(t: Tally): Sizes {
    Sizes(|t.peers|, |t.destPorts|, |t.protocols|, |t.eventTypes|, |t.urls|, |t.domains|, |t.hashes|, |t.binaries|)
  }

  function FeaturesOf(t: Tally): Features {
    Features(t.counters, t.commands, t.ebpf, t.bytesIn, t.bytesOut, t.duration, SizesOf(t))
  }

  // ----- labels -----

  datatype Label = Malicious | Benign | Unlabelled

  datatype Reason =
    | SuricataAlertObserved | ReverseShellPattern | PersistencePattern | PayloadDownload | FileHashIndicator
    | ScannerPattern | EbpfPrivilegeChange | EbpfSensitiveFileWrite | EbpfDownloadTool | EbpfShellWithConnection
    | NoEvidence

  /** The reasons in the order in which they are tried. */
  const REASONS: seq<Reason> := [SuricataAlertObserved, ReverseShellPattern, PersistencePattern, PayloadDownload,
                                 FileHashIndicator, ScannerPattern, EbpfPrivilegeChange, EbpfSensitiveFileWrite,
                                 EbpfDownloadTool, EbpfShellWithConnection]

  /** The condition of each reason. */
  predicate Shows(f: Features, r: Reason) {
    match r
    case SuricataAlertObserved => f.counters.suricataAlerts > 0
    case ReverseShellPattern => f.commands.reverseShells > 0
    case PersistencePattern => f.commands.persistenceAttempts > 0
    case PayloadDownload => f.commands.downloadCommands > 0
    case FileHashIndicator => f.sizes.hashCount > 0
    case ScannerPattern => f.commands.scannerCommands > 0
    case EbpfPrivilegeChange => f.ebpf.privilegeChanges > 0
    case EbpfSensitiveFileWrite => f.ebpf.sensitiveFileWrites > 0
    case EbpfDownloadTool => f.ebpf.downloadToolExecs > 0
    case EbpfShellWithConnection => f.ebpf.shellExecs > 0 && f.ebpf.outboundConnects > 0
    case NoEvidence => false
  }

  function Showing(f: Features, reasons: seq<Reason>): (shown: seq<Reason>)
    ensures forall r :: r in shown <==> r in reasons && Shows(f, r)
  {
    if reasons == [] then []
    else (if Shows(f, reasons[0]) then [reasons[0]] else []) + Showing(f, reasons[1..])
  }

  function Evidence(f: Features): seq<Reason> {
    Showing(f, REASONS)
  }

  function WeakLabel(f: Features): (Label, seq<Reason>) {
    if Evidence(f) != [] then (Malicious, Evidence(f)) else (Benign, [NoEvidence])
  }
}
