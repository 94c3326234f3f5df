/**
  What the window builder promises: no dependence on arrival order, merging of partial results,
  windows that do not overlap, nothing lost or counted twice, and labels that only ever worsen.
*/
module WindowTheorems {
  import opened Common
  import opened KeyedFold
  import opened Windows
  import opened WindowBuilder
  import opened WindowList

  lemma TallyMonoid()
    ensures CommutativeMonoid(ZERO, Plus())
  {
    forall a: Tally
      ensures Plus()(a, ZERO) == a
    {
      AddZero(a);
    }
    forall a: Tally, b: Tally
      ensures Plus()(a, b) == Plus()(b, a)
    {
      AddCommutes(a, b);
    }
    forall a: Tally, b: Tally, c: Tally
      ensures Plus()(Plus()(a, b), c) == Plus()(a, Plus()(b, c))
    {
      AddAssociates(a, b, c);
    }
  }

  // ----- order and merging -----

  /** Any arrival order gives the same windows. */
  lemma OrderIndependent(a: seq<Item>, b: seq<Item>, policy: Policy, seconds: int, labelled: bool)
    requires seconds > 0 && multiset(a) == multiset(b)
    ensures Build(a, policy, seconds, labelled) == Build(b, policy, seconds, labelled)
  {
    TallyMonoid();
    TotalsPermuted(a, b, Deal(Route(policy, seconds)), ZERO, Plus());
  }

  /** And the same list of them. */
  lemma ListOrderIndependent(a: seq<Item>, b: seq<Item>, policy: Policy, seconds: int, labelled: bool,
                             first: seq<EndpointWindow>, second: seq<EndpointWindow>)
    requires seconds > 0 && multiset(a) == multiset(b)
    requires IsListOf(first, Build(a, policy, seconds, labelled))
    requires IsListOf(second, Build(b, policy, seconds, labelled))
    ensures first == second
  {
    OrderIndependent(a, b, policy, seconds, labelled);
    ListUnique(first, second, Build(a, policy, seconds, labelled));
  }

  /** Merging the window states of two parts and then finalizing gives the windows of both parts together. */
  lemma StatesMerge(a: seq<Item>, b: seq<Item>, policy: Policy, seconds: int, labelled: bool)
    requires seconds > 0
    ensures var route := Route(policy, seconds);
            Build(a + b, policy, seconds, labelled)
            == FinalizeAll(Merge(TotalsOf(a, route), TotalsOf(b, route), Plus()), seconds, labelled)
  {
    TallyMonoid();
    TotalsConcat(a, b, Deal(Route(policy, seconds)), ZERO, Plus());
  }

  // ----- merging stored windows -----

  /** The features that are sums, added. The sizes are not. */
  predicate SumsOf(w: EndpointWindow, x: EndpointWindow, y: EndpointWindow) {
    && w.sourceEvents == x.sourceEvents + y.sourceEvents
    && w.features.counters == AddCounters(x.features.counters, y.features.counters)
    && w.features.commands == AddCommands(x.features.commands, y.features.commands)
    && w.features.ebpf == AddEbpf(x.features.ebpf, y.features.ebpf)
    && w.features.bytesIn == x.features.bytesIn + y.features.bytesIn
    && w.features.bytesOut == x.features.bytesOut + y.features.bytesOut
    && w.features.duration == x.features.duration + y.features.duration
  }

  /** A size of a merged window against those of its parts; `apart` says that the parts' sets share nothing. */
  predicate SizeMerges(n: nat, x: nat, y: nat, apart: bool) {
    Max(x, y) <= n <= x + y && (n == x + y <==> apart)
  }

  /** All eight sizes at once; `s` and `t` are what the parts have seen. */
  predicate SizesMerge(w: Sizes, x: Sizes, y: Sizes, s: Tally, t: Tally) {
    && SizeMerges(w.uniquePeers, x.uniquePeers, y.uniquePeers, s.peers !! t.peers)
    && SizeMerges(w.uniqueDestPorts, x.uniqueDestPorts, y.uniqueDestPorts, s.destPorts !! t.destPorts)
    && SizeMerges(w.uniqueProtocols, x.uniqueProtocols, y.uniqueProtocols, s.protocols !! t.protocols)
    && SizeMerges(w.uniqueEventTypes, x.uniqueEventTypes, y.uniqueEventTypes, s.eventTypes !! t.eventTypes)
    && SizeMerges(w.urlCount, x.urlCount, y.urlCount, s.urls !! t.urls)
    && SizeMerges(w.domainCount, x.domainCount, y.domainCount, s.domains !! t.domains)
    && SizeMerges(w.hashCount, x.hashCount, y.hashCount, s.hashes !! t.hashes)
    && SizeMerges(w.uniqueBinaries, x.uniqueBinaries, y.uniqueBinaries, s.binaries !! t.binaries)
  }

  lemma UnionSize<T>(x: set<T>, y: set<T>)
    ensures SizeMerges(|x + y|, |x|, |y|, x !! y)
  {
    assert |x + y| == |x| + |y| - |x * y|;
    assert |x * y| == 0 <==> x * y == {};
    var z := x - y;
    assert x + y == z + y && |z + y| == |z| + |y|;
    var v := y - x;
    assert x + y == x + v && |x + v| == |x| + |v|;
  }

  lemma TallySizes(s: Tally, t: Tally)
    ensures SizesMerge(SizesOf(Add(s, t)), SizesOf(s), SizesOf(t), s, t)
  {
    UnionSize(s.peers, t.peers);
    UnionSize(s.destPorts, t.destPorts);
    UnionSize(s.protocols, t.protocols);
    UnionSize(s.eventTypes, t.eventTypes);
    UnionSize(s.urls, t.urls);
    UnionSize(s.domains, t.domains);
    UnionSize(s.hashes, t.hashes);
    UnionSize(s.binaries, t.binaries);
  }

  /**
    The windows of two parts together: those of either part, unchanged where only one has the key. Where both have it,
    every feature that is a sum is the parts' sum, and each of the eight sizes lies between the larger part and the sum
    and is the sum exactly if the parts' sets for that key are disjoint.
  */
  lemma PartsMerge(a: seq<Item>, b: seq<Item>, policy: Policy, seconds: int, labelled: bool, key: Key)
    requires seconds > 0
    ensures var x, y := Build(a, policy, seconds, labelled), Build(b, policy, seconds, labelled);
            var w, route := Build(a + b, policy, seconds, labelled), Route(policy, seconds);
            && (key in w <==> key in x || key in y)
            && (key in x && key !in y ==> w[key] == x[key])
            && (key in y && key !in x ==> w[key] == y[key])
            && (key in x && key in y ==>
                  && SumsOf(w[key], x[key], y[key])
                  && SizesMerge(w[key].features.sizes, x[key].features.sizes, y[key].features.sizes,
                                TotalsOf(a, route)[key], TotalsOf(b, route)[key]))
  {
    var s, t := TotalsOf(a, Route(policy, seconds)), TotalsOf(b, Route(policy, seconds));
    StatesMerge(a, b, policy, seconds, labelled);
    MergedKey(s, t, key);
    if key in s && key in t {
      TallySizes(s[key], t[key]);
      WindowsOfTallies(key, s[key], t[key], seconds, labelled);
    }
  }

  lemma MergedKey(s: map<Key, Tally>, t: map<Key, Tally>, key: Key)
    ensures var merged := Merge(s, t, Plus());
            && (key in merged <==> key in s || key in t)
            && (key in s && key !in t ==> merged[key] == s[key])
            && (key in t && key !in s ==> merged[key] == t[key])
            && (key in s && key in t ==> merged[key] == Add(s[key], t[key]))
  {}

  lemma WindowsOfTallies(key: Key, s: Tally, t: Tally, seconds: int, labelled: bool)
    ensures var w := Finalized(key, Add(s, t), seconds, labelled);
            var x, y := Finalized(key, s, seconds, labelled), Finalized(key, t, seconds, labelled);
            && SumsOf(w, x, y)
            && w.features.sizes == SizesOf(Add(s, t))
            && x.features.sizes == SizesOf(s) && y.features.sizes == SizesOf(t)
  {}

  /** An item that comes twice changes no size: a window of both parts is not the sum of the parts. */
  lemma RepeatedItem(item: Item, policy: Policy, seconds: int, labelled: bool, key: Key)
    requires seconds > 0 && key in Build([item], policy, seconds, labelled)
    ensures key in Build([item] + [item], policy, seconds, labelled)
    ensures Build([item] + [item], policy, seconds, labelled)[key].features.sizes
            == Build([item], policy, seconds, labelled)[key].features.sizes
  {
    var total := TotalsOf([item], Route(policy, seconds));
    StatesMerge([item], [item], policy, seconds, labelled);
    MergedKey(total, total, key);
    SizesTwice(total[key]);
  }

  lemma SizesTwice(t: Tally)
    ensures SizesOf(Add(t, t)) == SizesOf(t)
  {
    assert t.peers + t.peers == t.peers && t.destPorts + t.destPorts == t.destPorts;
    assert t.protocols + t.protocols == t.protocols && t.eventTypes + t.eventTypes == t.eventTypes;
    assert t.urls + t.urls == t.urls && t.domains + t.domains == t.domains;
    assert t.hashes + t.hashes == t.hashes && t.binaries + t.binaries == t.binaries;
  }

  const QUIET: Tests := Tests(false, false, false, false, false, false, false, false, false, false, false, false, false,
                              false, false, false, false, false, false)

  /** One connection to a private address. */
  const CONTACT: Item := OfEvent(Event(OtherSource, "", None, Some("198.51.100.7"), Some("10.0.0.2"), None, None, None,
                                       None, None, {}, None, None, 0, 0, 0.0, QUIET))

  /** Two parts that saw the same peer: one peer together, and one in each. */
  lemma SharedPeer(policy: Policy)
    requires !policy.hasNetworks && policy.likelyInternal("10.0.0.2")
    ensures var key := Key("10.0.0.2", Inbound, 0);
            var x, w := Build([CONTACT], policy, 60, true), Build([CONTACT] + [CONTACT], policy, 60, true);
            && key in x && key in w
            && w[key].features.sizes.uniquePeers == 1
            && x[key].features.sizes.uniquePeers + x[key].features.sizes.uniquePeers == 2
  {
    var key, route := Key("10.0.0.2", Inbound, 0), Route(policy, 60);
    assert KeyOf(CONTACT, policy, 60) == Some(key);
    OneItem(CONTACT, route, key);
    assert EventPeers(CONTACT.event, "10.0.0.2") == {"198.51.100.7"};
    assert TotalsOf([CONTACT], route)[key].peers == {"198.51.100.7"};
    RepeatedItem(CONTACT, policy, 60, true, key);
  }

  lemma OneItem(item: Item, route: Router, key: Key)
    requires route(item) == Some(key)
    ensures TotalsOf([item], route) == map[key := ItemTally(item, key.endpoint)]
  {
    TallyMonoid();
    OneTotal(item, Deal(route), ZERO, Plus());
  }

  // ----- time -----

  /**
    A window contains the time it was chosen for, except for negative fractional times that truncate onto a boundary.
  */
  lemma WindowContainsIff(time: real, seconds: int)
    requires seconds > 0
    ensures var start := WindowStart(time, seconds);
            && (start as real <= time < (start + seconds) as real
                <==> !(time < 0.0 && time != time.Floor as real && Trunc(time) % seconds == 0))
            && start % seconds == 0
            && start as real - 1.0 < time < (start + seconds) as real
  {
    var epoch := Trunc(time);
    var start := WindowStart(time, seconds);
    assert epoch == start + epoch % seconds;
    assert 0 <= epoch % seconds < seconds;
    StartIsMultiple(epoch, seconds);
    if time < 0.0 && time != time.Floor as real {
      assert epoch as real - 1.0 < time < epoch as real;
    }
  }

  /** Half a second before the epoch goes to the window that starts at the epoch, and lies outside it. */
  lemma BeforeTheEpoch()
    ensures WindowStart(-0.5, 60) == 0
    ensures !(WindowStart(-0.5, 60) as real <= -0.5 < (WindowStart(-0.5, 60) + 60) as real)
  {
    assert (0.5).Floor == 0 && Trunc(-0.5) == 0;
  }

  lemma StartIsMultiple(epoch: int, seconds: int)
    requires seconds > 0
    ensures (epoch / seconds * seconds) % seconds == 0
  {
    QuotientIs(epoch / seconds * seconds, seconds, epoch / seconds, 0);
  }

  /** Two different windows of one endpoint and role never overlap. */
  lemma WindowsDisjoint(items: seq<Item>, policy: Policy, seconds: int, labelled: bool, j: Key, k: Key)
    requires seconds > 0
    requires var windows := Build(items, policy, seconds, labelled); j in windows && k in windows
    requires j.endpoint == k.endpoint && j.role == k.role && j != k
    ensures var windows := Build(items, policy, seconds, labelled);
            windows[j].end <= windows[k].key.start || windows[k].end <= windows[j].key.start
  {
    KeyStarts(items, policy, seconds, j);
    KeyStarts(items, policy, seconds, k);
    Spaced(j.start, k.start, seconds);
  }

  lemma KeyStarts(items: seq<Item>, policy: Policy, seconds: int, key: Key)
    requires seconds > 0 && key in TotalsOf(items, Route(policy, seconds))
    ensures key.start % seconds == 0
  {
    var item :| item in items && KeyOf(item, policy, seconds) == Some(key);
    StartIsMultiple(Trunc(TimeOf(item)), seconds);
  }

  lemma Spaced(a: int, b: int, m: int)
    requires m > 0 && a % m == 0 && b % m == 0 && a != b
    ensures a + m <= b || b + m <= a
  {
    var p, q := a / m, b / m;
    assert a == p * m && b == q * m;
    if p < q {
      MulAtLeast(q - p, m);
    } else {
      MulAtLeast(p - q, m);
    }
  }

  // ----- conservation -----

  function EventsIn(): Tally -> int {
    (t: Tally) => t.sourceEvents
  }

  function PacketsIn(): Tally -> int {
    (t: Tally) => t.counters.packetCount
  }

  function BytesIn(): Tally -> int {
    (t: Tally) => t.bytesIn + t.bytesOut
  }

  function WindowEvents(): EndpointWindow -> int {
    (w: EndpointWindow) => w.sourceEvents
  }

  function WindowPackets(): EndpointWindow -> int {
    (w: EndpointWindow) => w.features.counters.packetCount
  }

  function WindowBytes(): EndpointWindow -> int {
    (w: EndpointWindow) => w.features.bytesIn + w.features.bytesOut
  }

  predicate Selected(item: Item, policy: Policy) {
    SelectItemEndpoint(item, policy).Some?
  }

  /** A weight summed over the items for which an endpoint is selected. */
  function SumSelected(items: seq<Item>, policy: Policy, weight: Item -> int): int {
    if items == [] then 0
    else
      var last := items[|items| - 1];
      SumSelected(items[..|items| - 1], policy, weight) + if Selected(last, policy) then weight(last) else 0
  }

  function IsEvent(): Item -> int {
    (item: Item) => if item.OfEvent? then 1 else 0
  }

  function IsPacket(): Item -> int {
    (item: Item) => if item.OfPacket? then 1 else 0
  }

  /** The bytes of an item, whichever way they went. */
  function ItemBytes(): Item -> int {
    (item: Item) =>
      match item
      case OfEvent(e) => e.sentBytes + e.receivedBytes
      case OfPacket(p) => p.length
  }

  /** The sum of a measure over all windows. */
  ghost function WindowSum(windows: map<Key, EndpointWindow>, measure: EndpointWindow -> int): int {
    SumOver(windows, measure)
  }

  /** Over all windows: every selected event once, every selected packet once, and every byte of both. */
  lemma NothingLost(items: seq<Item>, policy: Policy, seconds: int, labelled: bool)
    requires seconds > 0
    ensures var windows := Build(items, policy, seconds, labelled);
            && WindowSum(windows, WindowEvents()) == SumSelected(items, policy, IsEvent())
            && WindowSum(windows, WindowPackets()) == SumSelected(items, policy, IsPacket())
            && WindowSum(windows, WindowBytes()) == SumSelected(items, policy, ItemBytes())
  {
    MeasureConserved(items, policy, seconds, labelled, EventsIn(), WindowEvents(), IsEvent());
    MeasureConserved(items, policy, seconds, labelled, PacketsIn(), WindowPackets(), IsPacket());
    MeasureConserved(items, policy, seconds, labelled, BytesIn(), WindowBytes(), ItemBytes());
  }

  lemma MeasureConserved(items: seq<Item>, policy: Policy, seconds: int, labelled: bool,
                         measure: Tally -> int, stored: EndpointWindow -> int, weight: Item -> int)
    requires seconds > 0
    requires Additive(measure, ZERO, Plus())
    requires forall key, t: Tally {:trigger measure(t), Finalized(key, t, seconds, labelled)} ::
               stored(Finalized(key, t, seconds, labelled)) == measure(t)
    requires forall item: Item, endpoint: string :: measure(ItemTally(item, endpoint)) == weight(item)
    ensures WindowSum(Build(items, policy, seconds, labelled), stored) == SumSelected(items, policy, weight)
  {
    var deal := Deal(Route(policy, seconds));
    var totals := TotalsOf(items, Route(policy, seconds));
    Conserved(items, deal, ZERO, Plus(), measure);
    SumItemsIs(items, policy, seconds, measure, weight);
    forall key | key in totals
      ensures stored(FinalizeAll(totals, seconds, labelled)[key]) == measure(totals[key])
    {
      assert FinalizeAll(totals, seconds, labelled)[key] == Finalized(key, totals[key], seconds, labelled);
    }
    SumOverAgrees(totals, measure, FinalizeAll(totals, seconds, labelled), stored);
  }

  lemma {:induction false} SumItemsIs(items: seq<Item>, policy: Policy, seconds: int, measure: Tally -> int,
                                      weight: Item -> int)
    requires seconds > 0
    requires forall item: Item, endpoint: string :: measure(ItemTally(item, endpoint)) == weight(item)
    ensures SumItems(items, Deal(Route(policy, seconds)), measure) == SumSelected(items, policy, weight)
  {
    if items != [] {
      SumItemsIs(items[..|items| - 1], policy, seconds, measure, weight);
    }
  }

  // ----- labels -----

  /** `b` has at least the evidence that `a` has. */
  predicate AtMost(a: Features, b: Features) {
    && a.counters.suricataAlerts <= b.counters.suricataAlerts
    && a.commands.reverseShells <= b.commands.reverseShells
    && a.commands.persistenceAttempts <= b.commands.persistenceAttempts
    && a.commands.downloadCommands <= b.commands.downloadCommands
    && a.commands.scannerCommands <= b.commands.scannerCommands
    && a.sizes.hashCount <= b.sizes.hashCount
    && a.ebpf.privilegeChanges <= b.ebpf.privilegeChanges
    && a.ebpf.sensitiveFileWrites <= b.ebpf.sensitiveFileWrites
    && a.ebpf.downloadToolExecs <= b.ebpf.downloadToolExecs
    && a.ebpf.shellExecs <= b.ebpf.shellExecs
    && a.ebpf.outboundConnects <= b.ebpf.outboundConnects
  }

  /** More items, wherever they come in, never take a window, a malicious verdict or a reason away. */
  lemma LabelsMonotone(items: seq<Item>, extra: seq<Item>, mixed: seq<Item>, policy: Policy, seconds: int,
                       key: Key)
    requires seconds > 0 && multiset(mixed) == multiset(items + extra)
    requires key in Build(items, policy, seconds, true)
    ensures key in Build(mixed, policy, seconds, true)
    ensures var before, after := Build(items, policy, seconds, true)[key], Build(mixed, policy, seconds, true)[key];
            before.verdict == Malicious ==>
              after.verdict == Malicious && forall r <- before.reasons :: r in after.reasons
  {
    hide Build;
    OrderIndependent(mixed, items + extra, policy, seconds, true);
    PartsMerge(items, extra, policy, seconds, true, key);
    var before, after := Build(items, policy, seconds, true)[key], Build(items + extra, policy, seconds, true)[key];
    assert AtMost(before.features, after.features);
    LabelOf(items, policy, seconds, key);
    LabelOf(items + extra, policy, seconds, key);
    EvidenceGrows(before.features, after.features);
  }

  lemma LabelOf(items: seq<Item>, policy: Policy, seconds: int, key: Key)
    requires seconds > 0 && key in Build(items, policy, seconds, true)
    ensures var w := Build(items, policy, seconds, true)[key];
            (w.verdict, w.reasons) == WeakLabel(w.features)
  {}

  lemma EvidenceGrows(a: Features, b: Features)
    requires AtMost(a, b)
    ensures forall r <- Evidence(a) :: r in Evidence(b)
    ensures WeakLabel(a).0 == Malicious ==>
              WeakLabel(b).0 == Malicious && forall r <- WeakLabel(a).1 :: r in WeakLabel(b).1
  {
    assert forall r :: Shows(a, r) ==> Shows(b, r);
    if Evidence(a) != [] {
      assert Evidence(a)[0] in Evidence(b);
    }
  }
}
