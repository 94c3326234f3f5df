/** What a window's reasons say about the events behind it, read off the events and not off the counters. */
module WindowLabels {
  import opened Common
  import opened KeyedFold
  import opened Windows
  import opened WindowBuilder

  datatype Fact = Alert | ReverseShell | Persistence | Download | Hash | Scanner | Privilege | SensitiveWrite
                | DownloadToolRun | ShellRun | Connection

  /** The facts behind a reason; only one reason needs two. */
  function FactsOf(r: Reason): set<Fact> {
    match r
    case SuricataAlertObserved => {Alert}
    case ReverseShellPattern => {ReverseShell}
    case PersistencePattern => {Persistence}
    case PayloadDownload => {Download}
    case FileHashIndicator => {Hash}
    case ScannerPattern => {Scanner}
    case EbpfPrivilegeChange => {Privilege}
    case EbpfSensitiveFileWrite => {SensitiveWrite}
    case EbpfDownloadTool => {DownloadToolRun}
    case EbpfShellWithConnection => {ShellRun, Connection}
    case NoEvidence => {}
  }

  /** Whether one event is evidence of a fact. */
  predicate EventShows(e: Event, fact: Fact) {
    match fact
    case Alert => e.source == Suricata && e.tests.isAlert
    case ReverseShell => Present(e.command) && e.tests.reverseShellToken
    case Persistence => Present(e.command) && e.tests.persistenceToken
    case Download => Present(e.command) && e.tests.downloadToken && (e.source == Ebpf ==> !e.tests.loopback)
    case Hash => e.hashes != {}
    case Scanner => Present(e.command) && e.tests.scannerToken
    case Privilege => e.source == Ebpf && e.tests.privilegeChange && !e.tests.containerRuntime
    case SensitiveWrite => e.source == Ebpf && e.tests.fileAccess && e.tests.writeAccess && e.tests.sensitivePath
    case DownloadToolRun => e.source == Ebpf && e.tests.downloadTool && !e.tests.loopback
    case ShellRun => e.source == Ebpf && e.tests.shell
    case Connection => e.source == Ebpf && e.tests.networkConnect
  }

  /** Some event of this window is evidence of the fact. */
  predicate SomeEventShows(items: seq<Item>, route: Router, key: Key, fact: Fact) {
    exists i ::
      0 <= i < |items| && route(items[i]) == Some(key) && items[i].OfEvent? && EventShows(items[i].event, fact)
  }

  predicate TallyShows(t: Tally, fact: Fact) {
    match fact
    case Alert => t.counters.suricataAlerts > 0
    case ReverseShell => t.commands.reverseShells > 0
    case Persistence => t.commands.persistenceAttempts > 0
    case Download => t.commands.downloadCommands > 0
    case Hash => t.hashes != {}
    case Scanner => t.commands.scannerCommands > 0
    case Privilege => t.ebpf.privilegeChanges > 0
    case SensitiveWrite => t.ebpf.sensitiveFileWrites > 0
    case DownloadToolRun => t.ebpf.downloadToolExecs > 0
    case ShellRun => t.ebpf.shellExecs > 0
    case Connection => t.ebpf.outboundConnects > 0
  }

  function Has(fact: Fact): Tally -> bool {
    (t: Tally) => TallyShows(t, fact)
  }

  lemma FactsShown(fact: Fact)
    ensures Shown(Has(fact), ZERO, Plus())
  {
    forall a: Tally, b: Tally
      ensures TallyShows(Add(a, b), fact) <==> TallyShows(a, fact) || TallyShows(b, fact)
    {}
  }

  lemma ItemFacts(item: Item, endpoint: string, fact: Fact)
    ensures TallyShows(ItemTally(item, endpoint), fact) <==> item.OfEvent? && EventShows(item.event, fact)
  {}

  lemma ReasonFacts(t: Tally, r: Reason)
    requires r in REASONS
    ensures Shows(FeaturesOf(t), r) <==> forall fact <- FactsOf(r) :: TallyShows(t, fact)
  {
    assert |t.hashes| > 0 <==> t.hashes != {};
    match r
    case SuricataAlertObserved => assert Alert in FactsOf(r);
    case ReverseShellPattern => assert ReverseShell in FactsOf(r);
    case PersistencePattern => assert Persistence in FactsOf(r);
    case PayloadDownload => assert Download in FactsOf(r);
    case FileHashIndicator => assert Hash in FactsOf(r);
    case ScannerPattern => assert Scanner in FactsOf(r);
    case EbpfPrivilegeChange => assert Privilege in FactsOf(r);
    case EbpfSensitiveFileWrite => assert SensitiveWrite in FactsOf(r);
    case EbpfDownloadTool => assert DownloadToolRun in FactsOf(r);
    case EbpfShellWithConnection => assert ShellRun in FactsOf(r) && Connection in FactsOf(r);
  }

  lemma TotalFacts(items: seq<Item>, route: Router, key: Key, fact: Fact)
    ensures TallyShows(Total(items, key, Deal(route), ZERO, Plus()), fact) <==> SomeEventShows(items, route, key, fact)
  {
    FactsShown(fact);
    TotalShows(items, key, Deal(route), ZERO, Plus(), Has(fact));
    forall i | 0 <= i < |items|
      ensures var dealt := Deal(route)(items[i]);
              (dealt.Some? && dealt.value.0 == key && Has(fact)(dealt.value.1))
              <==> (route(items[i]) == Some(key) && items[i].OfEvent? && EventShows(items[i].event, fact))
    {
      ItemFacts(items[i], key.endpoint, fact);
    }
  }

  /** Each fact behind the reason is shown by some event of the window. */
  predicate ReasonHolds(items: seq<Item>, route: Router, key: Key, r: Reason) {
    forall fact <- FactsOf(r) :: SomeEventShows(items, route, key, fact)
  }

  lemma EvidenceMeans(items: seq<Item>, route: Router, key: Key, r: Reason)
    requires r in REASONS
    ensures Shows(FeaturesOf(Total(items, key, Deal(route), ZERO, Plus())), r) <==> ReasonHolds(items, route, key, r)
  {
    var total := Total(items, key, Deal(route), ZERO, Plus());
    forall fact
      ensures TallyShows(total, fact) <==> SomeEventShows(items, route, key, fact)
    {
      TotalFacts(items, route, key, fact);
    }
    ReasonFacts(total, r);
  }

  /** The place of a reason among those that are tried. */
  function Place(r: Reason): nat {
    match r
    case SuricataAlertObserved => 0
    case ReverseShellPattern => 1
    case PersistencePattern => 2
    case PayloadDownload => 3
    case FileHashIndicator => 4
    case ScannerPattern => 5
    case EbpfPrivilegeChange => 6
    case EbpfSensitiveFileWrite => 7
    case EbpfDownloadTool => 8
    case EbpfShellWithConnection => 9
    case NoEvidence => 10
  }

  /** Each reason at most once, in the order in which they are tried. */
  predicate InOrder(reasons: seq<Reason>) {
    forall i, j :: 0 <= i < j < |reasons| ==> Place(reasons[i]) < Place(reasons[j])
  }

  lemma {:induction false} ShowingInOrder(f: Features, reasons: seq<Reason>)
    requires InOrder(reasons)
    ensures InOrder(Showing(f, reasons))
  {
    if reasons != [] {
      ShowingInOrder(f, reasons[1..]);
      var rest := Showing(f, reasons[1..]);
      forall k | 0 <= k < |rest|
        ensures Place(reasons[0]) < Place(rest[k])
      {
        assert rest[k] in reasons[1..];
      }
    }
  }

  lemma AllReasons(r: Reason)
    ensures r in REASONS <==> r != NoEvidence
    ensures InOrder(REASONS)
  {}

  lemma LabelIs(f: Features)
    ensures var (verdict, reasons) := WeakLabel(f);
            && (forall r :: r != NoEvidence ==> (r in reasons <==> Shows(f, r)))
            && (verdict == Malicious <==> exists r :: Shows(f, r))
            && (verdict == Malicious ==> NoEvidence !in reasons)
            && (verdict != Malicious ==> verdict == Benign && reasons == [NoEvidence])
            && InOrder(reasons)
  {
    forall r: Reason
      ensures r in REASONS <==> r != NoEvidence
    {
      AllReasons(r);
    }
    if Evidence(f) != [] {
      assert Evidence(f)[0] in Evidence(f);
    }
    AllReasons(NoEvidence);
    ShowingInOrder(f, REASONS);
  }

  /**
    A window names a reason exactly if each fact behind it is shown by some event of that window, each once and in the
    order in which they are tried; it is malicious exactly if some reason holds, and otherwise benign for want of
    evidence.
  */
  lemma LabelMeans(items: seq<Item>, policy: Policy, seconds: int, key: Key)
    requires seconds > 0 && key in Build(items, policy, seconds, true)
    ensures var window, route := Build(items, policy, seconds, true)[key], Route(policy, seconds);
            && (forall r :: r != NoEvidence ==> (r in window.reasons <==> ReasonHolds(items, route, key, r)))
            && (window.verdict == Malicious <==> exists r :: r != NoEvidence && ReasonHolds(items, route, key, r))
            && (window.verdict == Malicious ==> NoEvidence !in window.reasons)
            && (window.verdict != Malicious ==> window.verdict == Benign && window.reasons == [NoEvidence])
            && InOrder(window.reasons)
  {
    var route := Route(policy, seconds);
    var total := Total(items, key, Deal(route), ZERO, Plus());
    forall r | r != NoEvidence
      ensures Shows(FeaturesOf(total), r) <==> ReasonHolds(items, route, key, r)
    {
      AllReasons(r);
      EvidenceMeans(items, route, key, r);
    }
    LabelIs(FeaturesOf(total));
    assert Build(items, policy, seconds, true)[key] == Finalized(key, total, seconds, true);
  }
}
