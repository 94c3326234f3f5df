/**
  What every stored number of a window says about the items that went to it, read off the raw events and packets: counts
  of facts, bytes by direction, seconds, and sizes of sets of names; and which window an item goes to.
*/
module WindowMeaning {
  import opened Common
  import opened KeyedFold
  import opened WindowBuilder
  import opened WindowList
  import opened Windows

  predicate GoesTo(item: Item, policy: Policy, seconds: int, key: Key)
    requires seconds > 0
  {
    KeyOf(item, policy, seconds) == Some(key)
  }

  // ----- one total, item by item -----

  lemma {:induction false} TotalStep(items: seq<Item>, key: Key, route: Router)
    requires items != []
    ensures var n := |items| - 1;
            Total(items, key, Deal(route), ZERO, Plus())
            == if route(items[n]) == Some(key)
               then Add(Total(items[..n], key, Deal(route), ZERO, Plus()), ItemTally(items[n], key.endpoint))
               else Total(items[..n], key, Deal(route), ZERO, Plus())
  {}

  lemma WindowIs(items: seq<Item>, policy: Policy, seconds: int, labelled: bool, key: Key)
    requires seconds > 0 && key in Build(items, policy, seconds, labelled)
    ensures var w := Build(items, policy, seconds, labelled)[key];
            var total := Total(items, key, Deal(Route(policy, seconds)), ZERO, Plus());
            w.features == FeaturesOf(total) && w.sourceEvents == total.sourceEvents
  {}

  // ----- counts -----

  /** The counting features. */
  datatype Counted =
    | SourceEvents | EventCount | PacketCount | LoginFailures | LoginSuccesses | SuricataAlerts | DionaeaConnections
    | NetworkConnections | Commands | DownloadCommands | ReverseShells | PersistenceAttempts | ScannerCommands
    | EbpfEventCount | ProcessExecs | ProcessFanout | ShellExecs | ScriptExecs | DownloadToolExecs | OutboundConnects
    | PrivilegeChanges | TempFileWrites | SensitiveFileWrites

  /** What a window stores under each of them. */
  function Stored(w: EndpointWindow, c: Counted): nat {
    match c
    case SourceEvents => w.sourceEvents
    case EventCount => w.features.counters.eventCount
    case PacketCount => w.features.counters.packetCount
    case LoginFailures => w.features.counters.loginFailures
    case LoginSuccesses => w.features.counters.loginSuccesses
    case SuricataAlerts => w.features.counters.suricataAlerts
    case DionaeaConnections => w.features.counters.dionaeaConnections
    case NetworkConnections => w.features.counters.networkConnections
    case Commands => w.features.commands.commands
    case DownloadCommands => w.features.commands.downloadCommands
    case ReverseShells => w.features.commands.reverseShells
    case PersistenceAttempts => w.features.commands.persistenceAttempts
    case ScannerCommands => w.features.commands.scannerCommands
    case EbpfEventCount => w.features.ebpf.ebpfEventCount
    case ProcessExecs => w.features.ebpf.processExecs
    case ProcessFanout => w.features.ebpf.processFanout
    case ShellExecs => w.features.ebpf.shellExecs
    case ScriptExecs => w.features.ebpf.scriptExecs
    case DownloadToolExecs => w.features.ebpf.downloadToolExecs
    case OutboundConnects => w.features.ebpf.outboundConnects
    case PrivilegeChanges => w.features.ebpf.privilegeChanges
    case TempFileWrites => w.features.ebpf.tempFileWrites
    case SensitiveFileWrites => w.features.ebpf.sensitiveFileWrites
  }

  /** Whether one event counts there. */
  predicate EventCounts(e: Event, c: Counted) {
    match c
    case SourceEvents => true
    case EventCount => true
    case PacketCount => false
    case LoginFailures => e.source == Cowrie && e.tests.loginFailed
    case LoginSuccesses => e.source == Cowrie && e.tests.loginSuccess
    case SuricataAlerts => e.source == Suricata && e.tests.isAlert
    case DionaeaConnections => e.source == Dionaea
    case NetworkConnections => e.source == Zeek
    case Commands => Present(e.command)
    case DownloadCommands => Present(e.command) && e.tests.downloadToken && (e.source == Ebpf ==> !e.tests.loopback)
    case ReverseShells => Present(e.command) && e.tests.reverseShellToken
    case PersistenceAttempts => Present(e.command) && e.tests.persistenceToken
    case ScannerCommands => Present(e.command) && e.tests.scannerToken
    case EbpfEventCount => e.source == Ebpf
    case ProcessExecs => e.source == Ebpf && e.tests.processExec
    case ProcessFanout => e.source == Ebpf && e.tests.processExec
    case ShellExecs => e.source == Ebpf && e.tests.shell
    case ScriptExecs => e.source == Ebpf && e.tests.scriptRuntime
    case DownloadToolExecs => e.source == Ebpf && e.tests.downloadTool && !e.tests.loopback
    case OutboundConnects => e.source == Ebpf && e.tests.networkConnect
    case PrivilegeChanges => e.source == Ebpf && e.tests.privilegeChange && !e.tests.containerRuntime
    case TempFileWrites => e.source == Ebpf && e.tests.fileAccess && e.tests.writeAccess && e.tests.tempPath
    case SensitiveFileWrites => e.source == Ebpf && e.tests.fileAccess && e.tests.writeAccess && e.tests.sensitivePath
  }

  /** A packet counts as a packet, and as nothing else. */
  predicate ItemCounts(item: Item, c: Counted) {
    if item.OfEvent? then EventCounts(item.event, c) else c == PacketCount
  }

  /** The same number while the window is being filled. */
  function Running(t: Tally, c: Counted): nat {
    Stored(EndpointWindow(Key("", HostRole, 0), 0, FeaturesOf(t), t.sourceEvents, Unlabelled, []), c)
  }

  lemma RunningAdds(a: Tally, b: Tally, c: Counted)
    ensures Running(Add(a, b), c) == Running(a, c) + Running(b, c)
  {}

  lemma RunningStarts(c: Counted)
    ensures Running(ZERO, c) == 0
  {}

  lemma RunningItem(item: Item, endpoint: string, c: Counted)
    ensures Running(ItemTally(item, endpoint), c) == if ItemCounts(item, c) then 1 else 0
  {
    hide SizesOf, EventPeers, Given, GivenPort, DirectionalBytes;
    if item.OfEvent? {
      RunningEvent(item.event, endpoint, c);
    }
  }

  lemma RunningEvent(e: Event, endpoint: string, c: Counted)
    ensures Running(EventTally(e, endpoint), c) == if EventCounts(e, c) then 1 else 0
  {
    hide SizesOf, EventPeers, Given, GivenPort, DirectionalBytes;
  }

  /** An item of the window that counts. */
  function CountsHere(key: Key, route: Router, c: Counted): Item -> bool {
    item => route(item) == Some(key) && ItemCounts(item, c)
  }

  lemma {:induction false} TotalCounts(items: seq<Item>, key: Key, route: Router, c: Counted)
    ensures Running(Total(items, key, Deal(route), ZERO, Plus()), c) == |Positions(items, CountsHere(key, route, c))|
  {
    hide Running, ItemTally, Add, Total, ItemCounts, Positions;
    if items == [] {
      NoPositions(items, CountsHere(key, route, c));
      EmptyTotal(key, route);
      RunningStarts(c);
    } else {
      var n := |items| - 1;
      TotalCounts(items[..n], key, route, c);
      TotalStep(items, key, route);
      OnePositionMore(items, CountsHere(key, route, c));
      RunningAdds(Total(items[..n], key, Deal(route), ZERO, Plus()), ItemTally(items[n], key.endpoint), c);
      RunningItem(items[n], key.endpoint, c);
    }
  }

  lemma EmptyTotal(key: Key, route: Router)
    ensures Total([], key, Deal(route), ZERO, Plus()) == ZERO
  {}

  /** Every counting feature of a window is the number of its items that count there. */
  lemma CountsMean(items: seq<Item>, policy: Policy, seconds: int, labelled: bool, key: Key, c: Counted)
    requires seconds > 0 && key in Build(items, policy, seconds, labelled)
    ensures Stored(Build(items, policy, seconds, labelled)[key], c)
            == |set i | 0 <= i < |items| && GoesTo(items[i], policy, seconds, key) && ItemCounts(items[i], c)|
  {
    hide ItemCounts, Stored, Running, Build, Total, KeyOf;
    TotalCounts(items, key, Route(policy, seconds), c);
    WindowIs(items, policy, seconds, labelled, key);
    StoredIsRunning(Build(items, policy, seconds, labelled)[key],
                    Total(items, key, Deal(Route(policy, seconds)), ZERO, Plus()), c);
    assert Positions(items, CountsHere(key, Route(policy, seconds), c))
        == set i | 0 <= i < |items| && GoesTo(items[i], policy, seconds, key) && ItemCounts(items[i], c);
  }

  lemma StoredIsRunning(w: EndpointWindow, t: Tally, c: Counted)
    requires w.features == FeaturesOf(t) && w.sourceEvents == t.sourceEvents
    ensures Stored(w, c) == Running(t, c)
  {}

  // ----- bytes and seconds -----

  /** What an address sent according to an item: what the item's source sent, and what its destination answered. */
  function Sent(item: Item, address: string): int {
    match item
    case OfPacket(p) => if p.srcIp == address then p.length else 0
    case OfEvent(e) =>
      if e.srcIp == Some(address) then e.sentBytes else if e.destIp == Some(address) then e.receivedBytes else 0
  }

  /** All bytes of an item, in both directions. */
  function Carried(item: Item): int {
    match item
    case OfPacket(p) => p.length
    case OfEvent(e) => e.sentBytes + e.receivedBytes
  }

  function Lasted(item: Item): real {
    match item
    case OfPacket(_) => 0.0
    case OfEvent(e) => e.duration
  }

  function SumSent(items: seq<Item>, policy: Policy, seconds: int, key: Key): int
    requires seconds > 0
  {
    if items == [] then 0
    else
      var n := |items| - 1;
      SumSent(items[..n], policy, seconds, key)
      + if GoesTo(items[n], policy, seconds, key) then Sent(items[n], key.endpoint) else 0
  }

  function SumCarried(items: seq<Item>, policy: Policy, seconds: int, key: Key): int
    requires seconds > 0
  {
    if items == [] then 0
    else
      var n := |items| - 1;
      SumCarried(items[..n], policy, seconds, key)
      + if GoesTo(items[n], policy, seconds, key) then Carried(items[n]) else 0
  }

  function SumLasted(items: seq<Item>, policy: Policy, seconds: int, key: Key): real
    requires seconds > 0
  {
    if items == [] then 0.0
    else
      var n := |items| - 1;
      SumLasted(items[..n], policy, seconds, key)
      + if GoesTo(items[n], policy, seconds, key) then Lasted(items[n]) else 0.0
  }

  lemma ItemTraffic(item: Item, endpoint: string)
    ensures var t := ItemTally(item, endpoint);
            && t.bytesOut == Sent(item, endpoint)
            && t.bytesIn == Carried(item) - Sent(item, endpoint)
            && t.duration == Lasted(item)
  {}

  lemma {:induction false} TotalTraffic(items: seq<Item>, policy: Policy, seconds: int, key: Key)
    requires seconds > 0
    ensures var t := Total(items, key, Deal(Route(policy, seconds)), ZERO, Plus());
            && t.bytesOut == SumSent(items, policy, seconds, key)
            && t.bytesIn == SumCarried(items, policy, seconds, key) - SumSent(items, policy, seconds, key)
            && t.duration == SumLasted(items, policy, seconds, key)
  {
    hide ItemTally, Total, Sent, Carried, Lasted, KeyOf;
    if items == [] {
      EmptyTotal(key, Route(policy, seconds));
    } else {
      var n := |items| - 1;
      TotalTraffic(items[..n], policy, seconds, key);
      TotalStep(items, key, Route(policy, seconds));
      ItemTraffic(items[n], key.endpoint);
    }
  }

  /**
    The bytes that went out of a window are what its endpoint sent, and those that came in are all others of its items,
    those of items that do not name the endpoint among them.
  */
  lemma TrafficMeans(items: seq<Item>, policy: Policy, seconds: int, labelled: bool, key: Key)
    requires seconds > 0 && key in Build(items, policy, seconds, labelled)
    ensures var f := Build(items, policy, seconds, labelled)[key].features;
            && f.bytesOut == SumSent(items, policy, seconds, key)
            && f.bytesIn == SumCarried(items, policy, seconds, key) - SumSent(items, policy, seconds, key)
            && f.duration == SumLasted(items, policy, seconds, key)
  {
    TotalTraffic(items, policy, seconds, key);
    WindowIs(items, policy, seconds, labelled, key);
  }

  // ----- names -----

  /** The features that are numbers of different names. */
  datatype Names = Peers | Protocols | EventTypes | Urls | Domains | Hashes | Binaries

  function StoredSize(f: Features, names: Names): nat {
    match names
    case Peers => f.sizes.uniquePeers
    case Protocols => f.sizes.uniqueProtocols
    case EventTypes => f.sizes.uniqueEventTypes
    case Urls => f.sizes.urlCount
    case Domains => f.sizes.domainCount
    case Hashes => f.sizes.hashCount
    case Binaries => f.sizes.uniqueBinaries
  }

  /** Whether an item shows a name to the window of this endpoint. */
  predicate ShowsName(item: Item, endpoint: string, names: Names, x: string) {
    match item
    case OfPacket(p) =>
      || (names == Peers && x != endpoint && (p.srcIp == x || p.destIp == x))
      || (names == Protocols && p.protocol == x)
    case OfEvent(e) =>
      || (names == Peers && x != endpoint && x != "" && (e.srcIp == Some(x) || e.destIp == Some(x)))
      || (names == Protocols && x != "" && e.protocol == Some(x))
      || (names == EventTypes && e.eventType == x)
      || (names == Urls && x != "" && e.url == Some(x))
      || (names == Domains && x != "" && e.domain == Some(x))
      || (names == Hashes && x in e.hashes)
      || (names == Binaries && e.source == Ebpf && x != "" && e.binary == Some(x))
  }

  predicate ShowsPort(item: Item, port: int) {
    match item
    case OfPacket(p) => p.destPort == Some(port)
    case OfEvent(e) => e.destPort == Some(port)
  }

  function NamesOf(t: Tally, names: Names): set<string> {
    match names
    case Peers => t.peers
    case Protocols => t.protocols
    case EventTypes => t.eventTypes
    case Urls => t.urls
    case Domains => t.domains
    case Hashes => t.hashes
    case Binaries => t.binaries
  }

  lemma ItemNames(item: Item, endpoint: string, names: Names, x: string)
    ensures x in NamesOf(ItemTally(item, endpoint), names) <==> ShowsName(item, endpoint, names, x)
  {}

  lemma ItemPorts(item: Item, endpoint: string, port: int)
    ensures port in ItemTally(item, endpoint).destPorts <==> ShowsPort(item, port)
  {}

  /** Some item of the window shows the name. */
  ghost predicate SomeShows(items: seq<Item>, route: Router, key: Key, names: Names, x: string) {
    exists i :: 0 <= i < |items| && route(items[i]) == Some(key) && ShowsName(items[i], key.endpoint, names, x)
  }

  ghost predicate SomeShowsPort(items: seq<Item>, route: Router, key: Key, port: int) {
    exists i :: 0 <= i < |items| && route(items[i]) == Some(key) && ShowsPort(items[i], port)
  }

  function Holds(names: Names, x: string): Tally -> bool {
    (t: Tally) => x in NamesOf(t, names)
  }

  function HoldsPort(port: int): Tally -> bool {
    (t: Tally) => port in t.destPorts
  }

  lemma TotalNames(items: seq<Item>, key: Key, route: Router, names: Names, x: string)
    ensures x in NamesOf(Total(items, key, Deal(route), ZERO, Plus()), names)
            <==> SomeShows(items, route, key, names, x)
  {
    hide ShowsName, ItemTally;
    NamesShown(names, x);
    TotalShows(items, key, Deal(route), ZERO, Plus(), Holds(names, x));
    forall i | 0 <= i < |items|
      ensures x in NamesOf(ItemTally(items[i], key.endpoint), names) <==> ShowsName(items[i], key.endpoint, names, x)
    {
      ItemNames(items[i], key.endpoint, names, x);
    }
  }

  lemma NamesShown(names: Names, x: string)
    ensures Shown(Holds(names, x), ZERO, Plus())
  {
    forall a: Tally, b: Tally
      ensures x in NamesOf(Add(a, b), names) <==> x in NamesOf(a, names) || x in NamesOf(b, names)
    {}
  }

  lemma TotalPorts(items: seq<Item>, key: Key, route: Router, port: int)
    ensures port in Total(items, key, Deal(route), ZERO, Plus()).destPorts <==> SomeShowsPort(items, route, key, port)
  {
    hide ShowsPort, ItemTally;
    assert Shown(HoldsPort(port), ZERO, Plus());
    TotalShows(items, key, Deal(route), ZERO, Plus(), HoldsPort(port));
    forall i | 0 <= i < |items|
      ensures port in ItemTally(items[i], key.endpoint).destPorts <==> ShowsPort(items[i], port)
    {
      ItemPorts(items[i], key.endpoint, port);
    }
  }

  /** Each of these features is the size of the set of the names that the window's items show. */
  lemma NamesMean(items: seq<Item>, policy: Policy, seconds: int, labelled: bool, key: Key, names: Names,
                  shown: set<string>)
    requires seconds > 0 && key in Build(items, policy, seconds, labelled)
    requires forall x :: x in shown <==> SomeShows(items, Route(policy, seconds), key, names, x)
    ensures StoredSize(Build(items, policy, seconds, labelled)[key].features, names) == |shown|
  {
    hide SomeShows, Total, Build, NamesOf, StoredSize, Route;
    var total := Total(items, key, Deal(Route(policy, seconds)), ZERO, Plus());
    forall x
      ensures x in NamesOf(total, names) <==> x in shown
    {
      TotalNames(items, key, Route(policy, seconds), names, x);
    }
    assert NamesOf(total, names) == shown;
    WindowIs(items, policy, seconds, labelled, key);
    StoredSizeIs(total, names);
  }

  lemma StoredSizeIs(t: Tally, names: Names)
    ensures StoredSize(FeaturesOf(t), names) == |NamesOf(t, names)|
  {}

  lemma PortsMean(items: seq<Item>, policy: Policy, seconds: int, labelled: bool, key: Key, shown: set<int>)
    requires seconds > 0 && key in Build(items, policy, seconds, labelled)
    requires forall port :: port in shown <==> SomeShowsPort(items, Route(policy, seconds), key, port)
    ensures Build(items, policy, seconds, labelled)[key].features.sizes.uniqueDestPorts == |shown|
  {
    hide SomeShowsPort, Total;
    var total := Total(items, key, Deal(Route(policy, seconds)), ZERO, Plus());
    forall port
      ensures port in total.destPorts <==> port in shown
    {
      TotalPorts(items, key, Route(policy, seconds), port);
    }
    assert total.destPorts == shown;
    WindowIs(items, policy, seconds, labelled, key);
  }

  // ----- which window -----

  predicate Protected(address: Option<string>, policy: Policy) {
    address.Some? && address.value != "" && policy.inNetworks(address.value)
  }

  predicate Private(address: Option<string>, policy: Policy) {
    address.Some? && address.value != "" && policy.likelyInternal(address.value)
  }

  /** With protected networks, the protected end of a connection is its endpoint; the role says which end that is. */
  lemma ProtectedEndpoint(src: Option<string>, dest: Option<string>, policy: Policy)
    requires policy.hasNetworks
    ensures var r := SelectEndpoint(src, dest, policy);
            && (r.Some? <==> Protected(src, policy) || Protected(dest, policy))
            && (r.Some? ==>
                  && Some(r.value.0) == (if Protected(src, policy) then src else dest)
                  && (r.value.1 == Internal <==> Protected(src, policy) && Protected(dest, policy))
                  && (r.value.1 == Outbound <==> Protected(src, policy) && !Protected(dest, policy))
                  && (r.value.1 == Inbound <==> !Protected(src, policy) && Protected(dest, policy)))
  {}

  /** Without them, a private destination comes before a private source, and that before any address. */
  lemma LikelyEndpoint(src: Option<string>, dest: Option<string>, policy: Policy)
    requires !policy.hasNetworks
    ensures var r := SelectEndpoint(src, dest, policy);
            && (r.None? <==> !Present(src) && !Present(dest))
            && (r.Some? ==>
                  && (r.value.1 == Inbound || r.value.1 == Outbound || r.value.1 == UnknownRole)
                  && (r.value.1 == Inbound <==> Private(dest, policy) || (Present(dest) && !Private(src, policy)))
                  && (r.value.1 == Outbound <==> Private(src, policy) && !Private(dest, policy))
                  && Some(r.value.0) == (if r.value.1 == Inbound then dest else src))
  {}

  /** An event of the sensor that names no such address goes to its host. */
  lemma HostEndpoint(e: Event, policy: Policy)
    requires SelectEndpoint(e.srcIp, e.destIp, policy).None?
    ensures var r := SelectItemEndpoint(OfEvent(e), policy);
            && (r.Some? <==> e.source == Ebpf && Present(e.host))
            && (r.Some? ==>
                  && Some(r.value.0) == e.host
                  && (r.value.1 == Outbound || r.value.1 == HostRole)
                  && (r.value.1 == Outbound <==> Present(e.destIp) && !Present(e.srcIp)))
  {}

  /** Where any item goes: to its endpoint's window of its own time, or of the epoch if it has none. */
  lemma GoesToIff(item: Item, policy: Policy, seconds: int, key: Key)
    requires seconds > 0
    ensures var selected := if item.OfPacket?
                            then SelectEndpoint(Some(item.packet.srcIp), Some(item.packet.destIp), policy)
                            else if SelectEndpoint(item.event.srcIp, item.event.destIp, policy).Some?
                            then SelectEndpoint(item.event.srcIp, item.event.destIp, policy)
                            else SelectItemEndpoint(item, policy);
            var time := if item.OfPacket? then item.packet.timestamp else item.event.timestamp;
            GoesTo(item, policy, seconds, key)
            <==> selected == Some((key.endpoint, key.role))
                 && key.start == if time.Some? then WindowStart(time.value, seconds) else 0
  {}

  /** Exactly the keys some item goes to have a window, of its seconds; only labelled windows have a verdict. */
  lemma WindowsAre(items: seq<Item>, policy: Policy, seconds: int, labelled: bool, key: Key)
    requires seconds > 0
    ensures var windows := Build(items, policy, seconds, labelled);
            && (key in windows <==> exists item <- items :: GoesTo(item, policy, seconds, key))
            && (key in windows ==>
                  && windows[key].key == key && windows[key].end == key.start + seconds
                  && (!labelled ==> windows[key].verdict == Unlabelled && windows[key].reasons == []))
  {
    assert key in Keys(items, Deal(Route(policy, seconds)))
      <==> exists item <- items :: GoesTo(item, policy, seconds, key);
  }
}
