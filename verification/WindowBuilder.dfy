/**
  Building all windows of a run: one mutable state per (endpoint, role, start), filled in arrival
  order, proved equal to a definition that does not mention order.
*/
module WindowBuilder {
  import opened Common
  import opened KeyedFold
  import opened WindowList
  import opened Windows

  // ----- the order-free definition -----

  function Finalized(key: Key, total: Tally, seconds: int, labelled: bool): EndpointWindow {
    var features := FeaturesOf(total);
    var (verdict, reasons) := if labelled then WeakLabel(features) else (Unlabelled, []);
    EndpointWindow(key, key.start + seconds, features, total.sourceEvents, verdict, reasons)
  }

  function FinalizeAll(totals: map<Key, Tally>, seconds: int, labelled: bool): map<Key, EndpointWindow> {
    map key | key in totals :: Finalized(key, totals[key], seconds, labelled)
  }

  type Router = Item -> Option<Key>

  function TotalsOf(items: seq<Item>, route: Router): map<Key, Tally> {
    Totals(items, Deal(route), ZERO, Plus())
  }

  function Build(items: seq<Item>, policy: Policy, seconds: int, labelled: bool): map<Key, EndpointWindow>
    requires seconds > 0
  {
    FinalizeAll(TotalsOf(items, Route(policy, seconds)), seconds, labelled)
  }

  // ----- the program -----

  lemma PacketAdds(t: Tally, p: Packet, endpoint: string)
    ensures var outgoing := p.srcIp == endpoint;
            Add(t, PacketTally(p, endpoint))
            == t.(counters := t.counters.(packetCount := t.counters.packetCount + 1),
                  bytesOut := t.bytesOut + (if outgoing then p.length else 0),
                  bytesIn := t.bytesIn + (if outgoing then 0 else p.length),
                  peers := t.peers + (({p.srcIp} + {p.destIp}) - {endpoint}),
                  destPorts := t.destPorts + GivenPort(p.destPort), protocols := t.protocols + {p.protocol})
  {
    assert t.eventTypes + {} == t.eventTypes && t.urls + {} == t.urls && t.domains + {} == t.domains;
    assert t.hashes + {} == t.hashes && t.binaries + {} == t.binaries;
  }

  class WindowState {
    const key: Key
    const windowEnd: int
    var sourceEvents: nat
    var counters: Counters
    var commands: CommandCounters
    var ebpf: EbpfCounters
    var bytesIn: int
    var bytesOut: int
    var duration: real
    var peers: set<string>
    var destPorts: set<int>
    var protocols: set<string>
    var eventTypes: set<string>
    var urls: set<string>
    var domains: set<string>
    var hashes: set<string>
    var binaries: set<string>

    constructor (key: Key, seconds: int)
      ensures this.key == key && windowEnd == key.start + seconds
      ensures Value() == ZERO
    {
      this.key, windowEnd := key, key.start + seconds;
      sourceEvents, counters, commands, ebpf := 0, NO_COUNTS, NO_COMMANDS, NO_EBPF;
      bytesIn, bytesOut, duration := 0, 0, 0.0;
      peers, destPorts, protocols, eventTypes := {}, {}, {}, {};
      urls, domains, hashes, binaries := {}, {}, {}, {};
    }

    function Value(): Tally
      reads this
    {
      Tally(sourceEvents, counters, commands, ebpf, bytesIn, bytesOut, duration, peers, destPorts, protocols,
            eventTypes, urls, domains, hashes, binaries)
    }

    method AddContacts(protocol: set<string>, src: set<string>, dest: set<string>, port: Option<int>)
      modifies this`protocols, this`peers, this`destPorts
      ensures protocols == old(protocols) + protocol
      ensures peers == old(peers) + ((src + dest) - {key.endpoint})
      ensures destPorts == old(destPorts) + GivenPort(port)
    {
      protocols := protocols + protocol;
      peers := peers + ((src + dest) - {key.endpoint});
      if port.Some? {
        destPorts := destPorts + {port.value};
      }
    }

    method AddNames(e: Event)
      modifies this`eventTypes, this`urls, this`domains, this`hashes, this`binaries
      ensures eventTypes == old(eventTypes) + {e.eventType}
      ensures urls == old(urls) + Given(e.url) && domains == old(domains) + Given(e.domain)
      ensures hashes == old(hashes) + e.hashes
      ensures binaries == old(binaries) + if e.source == Ebpf then Given(e.binary) else {}
    {
      eventTypes := eventTypes + {e.eventType};
      if e.source == Ebpf && Present(e.binary) {
        binaries := binaries + {e.binary.value};
      }
      urls := urls + Given(e.url);
      domains := domains + Given(e.domain);
      hashes := hashes + e.hashes;
    }

    method AddTraffic(toPeer: int, fromPeer: int, seconds: real)
      modifies this`bytesIn, this`bytesOut, this`duration
      ensures bytesOut == old(bytesOut) + toPeer && bytesIn == old(bytesIn) + fromPeer
      ensures duration == old(duration) + seconds
    {
      bytesOut := bytesOut + toPeer;
      bytesIn := bytesIn + fromPeer;
      duration := duration + seconds;
    }

    method CountEvent(e: Event)
      modifies this`counters
      ensures counters == AddCounters(old(counters), EventCounters(e))
    {
      var c := counters.(eventCount := counters.eventCount + 1);
      if e.source == Cowrie && e.tests.loginFailed {
        c := c.(loginFailures := c.loginFailures + 1);
      }
      if e.source == Cowrie && e.tests.loginSuccess {
        c := c.(loginSuccesses := c.loginSuccesses + 1);
      }
      if e.source == Suricata && e.tests.isAlert {
        c := c.(suricataAlerts := c.suricataAlerts + 1);
      }
      if e.source == Dionaea {
        c := c.(dionaeaConnections := c.dionaeaConnections + 1);
      }
      if e.source == Zeek {
        c := c.(networkConnections := c.networkConnections + 1);
      }
      counters := c;
    }

    method CountCommand(e: Event)
      modifies this`commands
      ensures commands == AddCommands(old(commands), EventCommands(e))
    {
      if Present(e.command) {
        var c := commands.(commands := commands.commands + 1);
        if e.tests.downloadToken && !(e.source == Ebpf && e.tests.loopback) {
          c := c.(downloadCommands := c.downloadCommands + 1);
        }
        if e.tests.reverseShellToken {
          c := c.(reverseShells := c.reverseShells + 1);
        }
        if e.tests.persistenceToken {
          c := c.(persistenceAttempts := c.persistenceAttempts + 1);
        }
        if e.tests.scannerToken {
          c := c.(scannerCommands := c.scannerCommands + 1);
        }
        commands := c;
      }
    }

    static method CountExec(before: EbpfCounters, t: Tests) returns (c: EbpfCounters)
      ensures c == before.(processExecs := before.processExecs + One(t.processExec),
                           processFanout := before.processFanout + One(t.processExec),
                           shellExecs := before.shellExecs + One(t.shell),
                           scriptExecs := before.scriptExecs + One(t.scriptRuntime),
                           downloadToolExecs := before.downloadToolExecs + One(t.downloadTool && !t.loopback))
    {
      c := before;
      if t.processExec {
        c := c.(processExecs := c.processExecs + 1, processFanout := c.processFanout + 1);
      }
      if t.shell {
        c := c.(shellExecs := c.shellExecs + 1);
      }
      if t.scriptRuntime {
        c := c.(scriptExecs := c.scriptExecs + 1);
      }
      if t.downloadTool && !t.loopback {
        c := c.(downloadToolExecs := c.downloadToolExecs + 1);
      }
    }

    static method CountAccess(before: EbpfCounters, t: Tests) returns (c: EbpfCounters)
      ensures var write := t.fileAccess && t.writeAccess;
              c == before.(outboundConnects := before.outboundConnects + One(t.networkConnect),
                           privilegeChanges := before.privilegeChanges + One(t.privilegeChange && !t.containerRuntime),
                           tempFileWrites := before.tempFileWrites + One(write && t.tempPath),
                           sensitiveFileWrites := before.sensitiveFileWrites + One(write && t.sensitivePath))
    {
      c := before;
      if t.networkConnect {
        c := c.(outboundConnects := c.outboundConnects + 1);
      }
      if t.privilegeChange && !t.containerRuntime {
        c := c.(privilegeChanges := c.privilegeChanges + 1);
      }
      if t.fileAccess && t.writeAccess {
        if t.tempPath {
          c := c.(tempFileWrites := c.tempFileWrites + 1);
        }
        if t.sensitivePath {
          c := c.(sensitiveFileWrites := c.sensitiveFileWrites + 1);
        }
      }
    }

    method CountEbpf(e: Event)
      modifies this`ebpf
      ensures ebpf == AddEbpf(old(ebpf), EventEbpf(e))
    {
      if e.source == Ebpf {
        var c := CountExec(ebpf.(ebpfEventCount := ebpf.ebpfEventCount + 1), e.tests);
        ebpf := CountAccess(c, e.tests);
      }
    }

    method CountAll(e: Event)
      modifies this`counters, this`commands, this`ebpf
      ensures counters == AddCounters(old(counters), EventCounters(e))
      ensures commands == AddCommands(old(commands), EventCommands(e))
      ensures ebpf == AddEbpf(old(ebpf), EventEbpf(e))
    {
      CountEvent(e);
      CountCommand(e);
      CountEbpf(e);
    }

    method AddDetails(e: Event)
      modifies this`sourceEvents, this`protocols, this`peers, this`destPorts, this`eventTypes, this`urls,
               this`domains, this`hashes, this`binaries, this`bytesIn, this`bytesOut, this`duration
      ensures var added := EventTally(e, key.endpoint);
              && sourceEvents == old(sourceEvents) + added.sourceEvents
              && bytesIn == old(bytesIn) + added.bytesIn && bytesOut == old(bytesOut) + added.bytesOut
              && duration == old(duration) + added.duration
              && peers == old(peers) + added.peers && destPorts == old(destPorts) + added.destPorts
              && protocols == old(protocols) + added.protocols && eventTypes == old(eventTypes) + added.eventTypes
              && urls == old(urls) + added.urls && domains == old(domains) + added.domains
              && hashes == old(hashes) + added.hashes && binaries == old(binaries) + added.binaries
    {
      sourceEvents := sourceEvents + 1;
      AddContacts(Given(e.protocol), Given(e.srcIp), Given(e.destIp), e.destPort);
      AddNames(e);
      var (toPeer, fromPeer) := DirectionalBytes(e, key.endpoint);
      AddTraffic(toPeer, fromPeer, e.duration);
    }

    method ApplyEvent(e: Event)
      modifies this
      ensures Value() == Add(old(Value()), EventTally(e, key.endpoint))
    {
      CountAll(e);
      AddDetails(e);
    }

    method ApplyPacket(p: Packet)
      modifies this
      ensures Value() == Add(old(Value()), PacketTally(p, key.endpoint))
    {
      PacketAdds(Value(), p, key.endpoint);
      counters := counters.(packetCount := counters.packetCount + 1);
      AddContacts({p.protocol}, {p.srcIp}, {p.destIp}, p.destPort);
      var outgoing := p.srcIp == key.endpoint;
      AddTraffic(if outgoing then p.length else 0, if outgoing then 0 else p.length, 0.0);
    }

    method Apply(item: Item)
      modifies this
      ensures Value() == Add(old(Value()), ItemTally(item, key.endpoint))
    {
      match item
      case OfEvent(e) => ApplyEvent(e);
      case OfPacket(p) => ApplyPacket(p);
    }
  }

  /** One state per key, the state of that key (so no two keys share an object), holding its total. */
  ghost predicate Holding(states: map<Key, WindowState>, totals: map<Key, Tally>)
    reads states.Values
  {
    && states.Keys == totals.Keys
    && forall k {:trigger states[k]} :: k in states ==> states[k].key == k && states[k].Value() == totals[k]
  }

  /** What the states hold now. */
  function Values(states: map<Key, WindowState>): map<Key, Tally>
    reads states.Values
  {
    map k | k in states :: states[k].Value()
  }

  /** The state of a key, created empty on first use. */
  method StateOf(states: map<Key, WindowState>, key: Key, seconds: int, ghost totals: map<Key, Tally>,
                 ghost was: Tally)
    returns (states': map<Key, WindowState>)
    requires Holding(states, totals) && was == if key in totals then totals[key] else ZERO
    ensures Holding(states', totals[key := was])
    ensures forall k <- states' :: states'[k] in states.Values || fresh(states'[k])
  {
    states' := states;
    if key !in states {
      var state := new WindowState(key, seconds);
      states' := states[key := state];
    }
  }

  method ApplyAt(states: map<Key, WindowState>, item: Item, key: Key, ghost totals: map<Key, Tally>)
    requires Holding(states, totals) && key in states
    modifies states[key]
    ensures Holding(states, totals[key := Add(totals[key], ItemTally(item, key.endpoint))])
  {
    states[key].Apply(item);
  }

  method Place(states: map<Key, WindowState>, item: Item, key: Option<Key>, seconds: int, ghost totals: map<Key, Tally>)
    returns (states': map<Key, WindowState>)
    requires Holding(states, totals)
    modifies states.Values
    ensures Holding(states', if key.None? then totals else totals[key.value := Added(totals, key.value, item)])
    ensures forall k <- states' :: states'[k] in states.Values || fresh(states'[k])
  {
    states' := states;
    if key.Some? {
      ghost var was := if key.value in totals then totals[key.value] else ZERO;
      states' := StateOf(states, key.value, seconds, totals, was);
      ApplyAt(states', item, key.value, totals[key.value := was]);
      UpdatedTwice(totals, key.value, was, Added(totals, key.value, item));
    }
  }

  lemma UpdatedTwice(totals: map<Key, Tally>, key: Key, x: Tally, y: Tally)
    ensures totals[key := x][key := y] == totals[key := y]
  {}

  /** One item more, on totals. */
  lemma OneItemMore(items: seq<Item>, n: nat, route: Router)
    requires n < |items|
    ensures var before, key := TotalsOf(items[..n], route), route(items[n]);
            TotalsOf(items[..n + 1], route)
            == if key.None? then before else before[key.value := Added(before, key.value, items[n])]
  {
    assert items[..n + 1] == items[..n] + [items[n]];
    TotalsExtend(items[..n], items[n], Deal(route), ZERO, Plus());
  }

  /** The total of a key after one item more. */
  function Added(before: map<Key, Tally>, key: Key, item: Item): Tally {
    Add(if key in before then before[key] else ZERO, ItemTally(item, key.endpoint))
  }

  /** The shared loop: every selected item goes to the state of its key. */
  method Accumulate(items: seq<Item>, route: Router, seconds: int) returns (states: map<Key, WindowState>)
    ensures Holding(states, TotalsOf(items, route))
  {
    states := map[];
    var n := 0;
    while n < |items|
      invariant 0 <= n <= |items|
      invariant forall k <- states :: fresh(states[k])
      invariant Holding(states, TotalsOf(items[..n], route))
    {
      states := Place(states, items[n], route(items[n]), seconds, TotalsOf(items[..n], route));
      OneItemMore(items, n, route);
      n := n + 1;
    }
    assert items[..n] == items;
  }

  /** Event windows carry weak labels; a non-positive width is an error as soon as an item is selected. */
  method BuildEndpointWindows(events: seq<Item>, policy: Policy, seconds: int)
    returns (windows: Option<seq<EndpointWindow>>)
    requires forall item <- events :: item.OfEvent?
    ensures windows.None? <==> seconds <= 0 && exists item <- events :: SelectItemEndpoint(item, policy).Some?
    ensures windows.Some? && seconds > 0 ==> IsListOf(windows.value, Build(events, policy, seconds, true))
    ensures windows.Some? && seconds <= 0 ==> windows.value == []
  {
    windows := BuildAny(events, policy, seconds, true);
  }

  /** Packet windows stay unlabelled. */
  method BuildEndpointWindowsFromPackets(packets: seq<Item>, policy: Policy, seconds: int)
    returns (windows: Option<seq<EndpointWindow>>)
    requires forall item <- packets :: item.OfPacket?
    ensures windows.None? <==> seconds <= 0 && exists item <- packets :: SelectItemEndpoint(item, policy).Some?
    ensures windows.Some? && seconds > 0 ==> IsListOf(windows.value, Build(packets, policy, seconds, false))
    ensures windows.Some? && seconds <= 0 ==> windows.value == []
  {
    windows := BuildAny(packets, policy, seconds, false);
  }

  method BuildAny(items: seq<Item>, policy: Policy, seconds: int, labelled: bool)
    returns (windows: Option<seq<EndpointWindow>>)
    ensures windows.None? <==> seconds <= 0 && exists item <- items :: SelectItemEndpoint(item, policy).Some?
    ensures windows.Some? && seconds > 0 ==> IsListOf(windows.value, Build(items, policy, seconds, labelled))
    ensures windows.Some? && seconds <= 0 ==> windows.value == []
  {
    if seconds <= 0 {
      if exists item <- items :: SelectItemEndpoint(item, policy).Some? {
        return None;
      }
      return Some([]);
    }
    var states := Accumulate(items, Route(policy, seconds), seconds);
    var list := SortWindows(FinalizeAll(Values(states), seconds, labelled));
    windows := Some(list);
  }
}
