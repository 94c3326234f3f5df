# Honeypot analysis: verified model

A Dafny model of the parts of the honeypot analysis toolkit that carry real algorithms, with proofs of what they
promise. `dafny verify dfyconfig.toml` checks everything. Files and what they model:

- `Calibration.dfy`, `ThresholdSelection.dfy`: the alert-threshold tuner. A tie-grouped descending sweep stands for the
  naive confusion matrix of `score >= threshold`; the threshold chosen under a false-positive or an alerts-per-day
  budget is optimal against every real number, not only against the candidates.
- `JsonGrammar.dfy`, `JsonNesting.dfy`, `JsonScanner.dfy`, `JsonMembers.dfy`, `JsonReport.dfy`: the report importer's
  hand-written byte scanners, against syntax trees for RFC 8259 (sections 2 to 7) that keep every byte.
- `JsonPatterns.dfy`, `JsonWriter.dfy`, `JsonText.dfy`, `JsonExamples.dfy`, `JsonCut.dfy`: where the importer's textual
  patterns occur in a report, read off its tree, what follows for the reports that the analyser writes itself, the
  patterns in characters, two reports that it misreads and one that it reads, and reports that were cut off.
- `Lines.dfy`, `Tailer.dfy`, `TailerRuns.dfy`, `LogLines.dfy`, `TailerRotation.dfy`, `TailerBlocked.dfy`: the
  offset-checkpointed log tailer as a protocol with growing and replaced files, interrupted polls, damaged checkpoints and
  lines that cannot be parsed; what the lines of a file are, at-least-once and exactly-once over whole runs, and what stops
  it for good.
- `KeyedFold.dfy`, `Windows.dfy`, `WindowList.dfy`, `WindowBuilder.dfy`, `WindowTheorems.dfy`, `WindowMeaning.dfy`,
  `WindowLabels.dfy`: endpoint windows as a keyed stateful fold, with order independence, merging, disjointness,
  conservation and monotone labels; every stored number, and every label, read off the raw events and packets.
- `Bytes.dfy`, `WireFormat.dfy`, `WireCodec.dfy`, `KernelStruct.dfy`, `Fnv.dfy`: the kernel/user-space event record, also
  against a list of the kernel's fields by name, and the FNV-1a event ids (draft-eastlake-fnv, section 2).
- `Utf8.dfy`, `TextBuffers.dfy`, `Ipv4Text.dfy`: texts in fixed buffers, with lossy UTF-8 decoding (RFC 3629, sections 3,
  4 and 7), and address texts from the kernel's writer to the sensor's verdict.
- `Ipv4Packet.dfy`, `Pcap.dfy`: the packet parser (RFC 791, section 3.1) and the capture reader
  (draft-ietf-opsawg-pcap, sections 4 and 5), for whole, cut and arbitrary files.
- `SingleFlight.dfy`, `SummaryHistory.dfy`: the flag, mutex and task behind the live summary, under every interleaving of
  any number of requests and page loads, and what a request's fate and a page's text say about the run.
- `ImportFlight.dfy`, `ImportHistory.dfy`: the flag and lock of the queued report imports, beside the sync runs, which
  import under a lock of their own, and what a stage says about the steps before it.
- `ReportStore.dfy`, `ReportTheorems.dfy`: the report tables and the replace-by-path import, over every sequence of
  imports.
- `AnomalyScores.dfy`, `AnomalyMeaning.dfy`: the median/MAD outlier score of sessions, and what its medians, deviations and
  parts are in terms of the values.

What runs as a loop or on a buffer is a method here, and what keeps state is a class; each is proved equal to a function
that the theorems are about. Floating-point scores and features are reals, and bytes are integers from 0 to 255.

Several promises turned out false of the code as it stands. Each has a lemma that says exactly when it holds and, where
that condition does not already name the failing input, a concrete input or run on which it does not:

- the member scanner misses an array when an earlier top-level string value is spelled like its name
  (`TopLevelRightIff`, `ShadowedReport`);
- the textual shortcut in front of it takes a nested member of the same name when that comes first
  (`ShortcutRightIff`, `ReportArrayStartRightIff`, `NestedReport`); on the analyser's own reports the `sessions` are
  therefore found exactly if there is no actor (`SessionsRightIff`);
- capture timestamps are scaled as microseconds under the nanosecond magic too (`TimestampRightIff`,
  `NanosecondCapture`);
- a packet's ports are read from whatever stands behind the header, in a later fragment and in the padding behind a short
  datagram too (`DatagramParsed`, `FramePortsRightIff`, `InventedPorts`);
- a window start truncates toward zero, so some times before the epoch fall outside their window
  (`WindowContainsIff`, `BeforeTheEpoch`);
- a file replaced by one at least as long as the checkpoint is not noticed, and what stands before the old offset is lost
  for good (`RotationReadIff`, `RotationLoses`, `UnseenRotation`);
- some damaged checkpoints make every poll raise before it delivers anything, until someone repairs them (`CanPollIff`,
  `CanPollInRun`, `StuckForever`);
- one complete line that cannot be parsed makes every later poll of its file raise, with all files polled beside it
  (`CompletesIff`, `BlockedInRun`);
- imports are serial exactly as long as no sync run imports while a queued import holds its lock, and that can always
  still happen (`OverlapIff`, `SerialWithoutSyncs`, `OverlapAhead`, `SyncOverlaps`).

## Model

| member | source | states |
|---|---|---|
| Calibration.ThresholdCandidates | src/honeypot_ai/ml.py:954-1005 | the sweep's records are the naive counts of their own thresholds, strictly descending, one per distinct score behind one above them all |
| Calibration.GroupEnd | src/honeypot_ai/ml.py:986-988 | a tie group is a maximal run of equal scores |
| Calibration.EvaluateTotals | src/honeypot_ai/ml.py:1056-1066 | hits and misses of each label add up to that label's total; on 0/1 labels the alerts are the true and false positives |
| Calibration.EvaluateMeans | src/honeypot_ai/ml.py:1056-1066 | each of the five counts is the number of windows with that outcome, read off their scores and labels |
| Calibration.EvaluateMonotone | src/honeypot_ai/ml.py:1056-1066 | raising a threshold never adds an alert of either label |
| Calibration.PrefixCounts | src/honeypot_ai/ml.py:984-1005 | the running counts at a cut of any descending arrangement are the naive counts of the cut's threshold |
| Calibration.DurationDays | src/honeypot_ai/ml.py:1217-1225 | a duration is positive, is absent exactly if no window ends after any begins, and times 86400 is the longest time from a window's start to a window's end |
| ThresholdSelection.MaxBy | src/honeypot_ai/ml.py:886-895 | the choice is a candidate with a lexicographically greatest key |
| ThresholdSelection.CandidateFor | src/honeypot_ai/ml.py:971-1005 | every real threshold alerts on exactly the windows that some candidate alerts on |
| ThresholdSelection.SweepGrows | src/honeypot_ai/ml.py:984-1005 | further down the sweep there are strictly more alerts and no fewer of either label |
| ThresholdSelection.F1Closed | src/honeypot_ai/ml.py:1018-1025 | F1 of precision and recall is twice the hits over alerts plus positives |
| ThresholdSelection.TargetFprOptimal | src/honeypot_ai/ml.py:860-903 | with both classes present the false-positive objective never falls back; its threshold is in budget, no real threshold in budget recalls more, and none with that recall raises fewer alerts |
| ThresholdSelection.BestWithinFprUnique | src/honeypot_ai/ml.py:886-895 | two thresholds with that property alert on the same windows |
| ThresholdSelection.TargetFprChoosesIff | src/honeypot_ai/ml.py:861-885 | the false-positive objective chooses a candidate if and only if both classes occur, and otherwise falls back for the one reason left |
| ThresholdSelection.FeasiblePrefix | src/honeypot_ai/ml.py:906-911 | the candidates within the alert budget are a non-empty prefix of the sweep |
| ThresholdSelection.TargetAlertsOptimal | src/honeypot_ai/ml.py:905-934 | the alert objective takes the last candidate of that prefix, and no real threshold in budget has more alerts or more hits |
| ThresholdSelection.TargetAlertsChoosesIff | src/honeypot_ai/ml.py:912-917 | the alert objective chooses a candidate if and only if there are windows and they span some time |
| ThresholdSelection.SelectCalibrationThreshold | src/honeypot_ai/ml.py:825-934 | sweep and selection together: when each objective chooses or falls back; the choice is optimal among all real thresholds, for the alert objective with alerts times 86400 within target times span in seconds; its counts and rates are those of its threshold |
| ThresholdSelection.HighThreshold | src/honeypot_ai/ml.py:1305-1311 | the quantile if it lies above the threshold, and otherwise half the threshold's size above it, but at least 0.05 |
| ThresholdSelection.SeverityMonotone | src/honeypot_ai/ml.py:1426-1433 | severity rises with the score, is low exactly below the threshold, high exactly from the high threshold on, and medium at the threshold |
| ThresholdSelection.MediumAlerts | src/honeypot_ai/ml.py:1056-1060 | alerts minus high alerts is the number of windows the scorer itself calls medium |
| ThresholdSelection.SplitIsProper | src/honeypot_ai/ml.py:592-617 | three rows or more always split into three non-empty consecutive parts, each of the first two ending at the largest row within its fraction unless that leaves another part empty |
| JsonScanner.FindJsonArrayEnd | src_web/main.rs:987-1020 | the scanning loop computes the end that the lemmas below are about |
| JsonScanner.ArrayEndIsMatching | src_web/main.rs:987-1020 | started at the bracket of any array of the grammar, behind any prefix and before any suffix, the scanner stops just past the matching bracket |
| JsonScanner.ArrayEndStable | src_web/main.rs:987-1020 | an answer does not depend on what follows it |
| JsonScanner.CutArrayUnterminated | src_web/main.rs:895-896 | an array cut anywhere is reported as unterminated |
| JsonMembers.ReadJsonString | src_web/main.rs:960-978 | the raw string up to the first unescaped quote, and the index behind it |
| JsonMembers.SkipJsonWs | src_web/main.rs:980-985 | the first index that holds no space, tab or line end |
| JsonMembers.FindTopLevelArrayStart | src_web/main.rs:914-958 | the scanning loop computes the start that the lemmas below are about |
| JsonReport.TopLevelArrayStart | src_web/main.rs:914-958 | on any object text: the bracket of the first top-level member of that name if its value is an array, and nothing otherwise or behind a string value spelled like the name |
| JsonReport.TopLevelRightIff | src_web/main.rs:936-950 | the member scanner is right if and only if no such string value hides an array |
| JsonExamples.ShadowedReport | src_web/main.rs:936-950 | a text whose actors it misses, and the importer with it |
| JsonReport.FindReportArrayStart | src_web/main.rs:900-912 | the three textual patterns in order, then the member scanner |
| JsonText.FirstPatternTaken | src_web/main.rs:900-912 | in characters: of the three patterns that occur, the first in the order of the list, where it first stands, gives the bracket; without any the member scanner answers |
| JsonReport.ShortcutRightIff | src_web/main.rs:901-910 | when some pattern occurs, the answer is right if and only if the member is laid out with a gap whose pattern does not occur before the member's name and no pattern with an earlier gap occurs at all |
| JsonReport.ReportArrayStartRightIff | src_web/main.rs:900-912 | exactly when shortcut and scanner together find the right bracket |
| JsonExamples.NestedReport | src_web/main.rs:901-910 | a text in whose sessions the shortcut takes those of an actor |
| JsonExamples.SpacedReport | src_web/main.rs:891-1020 | a text with every kind of whitespace, a bracket in a string and an escaped quote, whose array is cut out whole |
| JsonWriter.OccurrencesAre | src_web/main.rs:901-910 | in any report, a pattern occurs exactly at the members, at any depth, that are laid out like it and whose name ends like the key |
| JsonWriter.WrittenRightIff | src/honeypot_ai/report.py:100-101 | with one space behind every colon, as the writer has it, an array is found right if and only if no member before it, at any depth, has an array for a value and a name that ends like the key |
| JsonWriter.SessionsRightIff | src/honeypot_ai/report.py:100-101 | where each actor has sessions of its own, the actors come first and nothing else before the sessions holds an array of that name, the sessions of the report are found right if and only if it has no actor |
| JsonReport.ParseTopLevelArray | src_web/main.rs:891-898 | the slice handed to the JSON library, or that there is none, or that it is unterminated |
| JsonReport.SliceIsTheArray | src_web/main.rs:891-898 | whenever the right bracket is found, the slice is byte for byte the named array |
| JsonCut.CutReportUnterminated | src_web/main.rs:891-896 | a report cut anywhere inside the named array is reported as unterminated, never as lacking it, wherever the whole report is read right |
| Lines.SplitAdditive | src/honeypot_ai/realtime.py:254-265 | reading in two pieces, the first ending in a newline, gives the lines of the whole |
| Lines.CompleteLength | src/honeypot_ai/realtime.py:256-262 | the longest prefix that ends in a newline |
| LogLines.LinesAre | src/honeypot_ai/realtime.py:264-265 | the lines of texts without terminators, each with one of the eleven terminators behind it, are those texts, and the rest behind the last one |
| LogLines.Decompose | src/honeypot_ai/realtime.py:264-265 | and all bytes are of this form |
| LogLines.LinesArePlain | src/honeypot_ai/realtime.py:264-265 | no line contains a terminator |
| LogLines.LogIsRead | src/honeypot_ai/realtime.py:240-265 | behind a line start, a read of lines with LF or CR LF behind them takes exactly these lines and leaves an unfinished one |
| LogLines.LogIsDelivered | src/honeypot_ai/realtime.py:39-93 | and an undisturbed poll delivers them whole and in order |
| Tailer.ReadNewCompleteLines | src/honeypot_ai/realtime.py:240-265 | the new complete lines and the offset behind them, with a shrunken file read from its start |
| Tailer.Host.ReadAll | src/honeypot_ai/realtime.py:55-66 | the batch and the next offsets of all paths |
| Tailer.Host.StreamOnce | src/honeypot_ai/realtime.py:39-93 | one poll: append, then checkpoint; nothing at all when the batch does not parse, when the checkpoint cannot be loaded or when an offset cannot be sought |
| Tailer.Host.SplunkStreamOnce | src/honeypot_ai/realtime.py:122-205 | one poll with two sinks: the checkpoint moves only after both took the batch, and a collector that fails has taken any part of it |
| TailerRuns.ReadAdvances | src/honeypot_ai/realtime.py:240-265 | from a line start, a read takes exactly the complete lines and stops at a line start with no newline behind it |
| TailerRuns.StepKeepsAtLeastOnce | src/honeypot_ai/realtime.py:53-88 | growth, polls that end anywhere, batches taken in part and a damaged checkpoint all keep every line before the checkpoint delivered, in order |
| TailerRuns.NothingSkipped | src/honeypot_ai/realtime.py:53-88 | so in every reachable state of every run: at least once, never skipped |
| TailerRuns.OnePollCatchesUp | src/honeypot_ai/realtime.py:53-88 | from any reachable state whose checkpoint loads, one undisturbed poll delivers all complete lines with their multiplicities |
| TailerRuns.CanPollIff | src/honeypot_ai/realtime.py:240-305 | a poll can complete if and only if the checkpoint is decodable, no number in it is infinite, and no file polled has a negative offset |
| TailerRuns.CanPollInRun | src/honeypot_ai/realtime.py:285-300 | in a run, a poll can complete if and only if the checkpoint loads |
| TailerBlocked.StuckForever | src/honeypot_ai/realtime.py:240-300 | from a checkpoint from which a poll of some files cannot complete, no later poll of them can, however the run goes on; nothing is delivered or saved any more if the checkpoint does not load or nothing else is polled |
| TailerBlocked.CompletesIff | src/honeypot_ai/realtime.py:55-72 | a poll runs to its end if and only if the checkpoint permits it and no file polled has an uncovered complete line that cannot be parsed |
| TailerBlocked.BlockedInRun | src/honeypot_ai/realtime.py:55-93 | after any history, one such line blocks its file and every file polled with it for good, whatever is appended |
| TailerRuns.NothingTwice | src/honeypot_ai/realtime.py:55-93 | in undisturbed runs each sink holds precisely the lines before the checkpoint: exactly once |
| TailerRuns.UndisturbedPollComplete | src/honeypot_ai/realtime.py:55-93 | and after a whole poll no complete line is undelivered or delivered twice |
| TailerRuns.SavedRoundTrip | src/honeypot_ai/realtime.py:285-305 | saved offsets are loaded back |
| TailerRotation.RotationReadIff | src/honeypot_ai/realtime.py:240-265 | a read takes exactly the complete lines of a file, whatever was there before, if and only if the file is shorter than the offset, the offset is zero, or it has no complete line |
| TailerRotation.UnseenRotation | src/honeypot_ai/realtime.py:243-251 | a replacement whose first line is never read |
| TailerRotation.RotationLoses | src/honeypot_ai/realtime.py:240-265 | after such a replacement, however an undisturbed run goes on, each sink gets the new file's lines from the old offset on and nothing before it |
| TailerRotation.RotationSeen | src/honeypot_ai/realtime.py:243-245 | after a shorter replacement the next whole poll delivers all complete lines of the new file |
| WindowBuilder.WindowState.ApplyEvent | src/honeypot_ai/endpoint.py:334-412 | one event adds its own tally to the window's totals |
| WindowBuilder.WindowState.ApplyPacket | src/honeypot_ai/endpoint.py:415-429 | one packet adds its own tally |
| WindowBuilder.WindowState.CountEbpf | src/honeypot_ai/endpoint.py:385-412 | the sensor counters |
| WindowBuilder.Accumulate | src/honeypot_ai/endpoint.py:101-127 | one state per (endpoint, role, start), never shared, holding the total of that key's items |
| WindowList.SortWindows | src/honeypot_ai/endpoint.py:331 | the list holds each window once, in ascending order of start, endpoint and role |
| WindowList.BeforeMeans | src/honeypot_ai/endpoint.py:331 | that order is by start, then endpoint, then the name of the role |
| WindowList.TextBeforeIff | src/honeypot_ai/endpoint.py:331 | a text comes first if it is a proper front of the other or smaller where they first differ |
| WindowBuilder.BuildEndpointWindows | src/honeypot_ai/endpoint.py:94-128 | the list returned is the order-free definition's windows, with the eight sizes stored, in ascending order; a non-positive width fails exactly if some event is selected |
| WindowBuilder.BuildEndpointWindowsFromPackets | src/honeypot_ai/endpoint.py:131-165 | the same for packets, without labels |
| WindowTheorems.TallyMonoid | src/honeypot_ai/endpoint.py:334-429 | window totals form a commutative monoid |
| WindowTheorems.OrderIndependent | src/honeypot_ai/endpoint.py:94-165 | any arrival order gives the same windows |
| WindowTheorems.ListOrderIndependent | src/honeypot_ai/endpoint.py:94-165 | and the same sorted list |
| WindowTheorems.StatesMerge | src/honeypot_ai/endpoint.py:94-165 | merging the running totals of two parts and then finalizing gives the windows of the concatenation |
| WindowTheorems.PartsMerge | src/honeypot_ai/endpoint.py:94-165 | the windows of a concatenation, by key: unchanged where only one part has it; where both have, every additive feature is the sum of the parts', and each of the eight sizes lies between the larger part and the sum, and is the sum if and only if the parts' sets are disjoint |
| WindowTheorems.SharedPeer | src/honeypot_ai/endpoint.py:312-319 | two parts on which a size is not the sum |
| WindowTheorems.WindowContainsIff | src/honeypot_ai/endpoint.py:598-610 | exactly when a window contains the time it was chosen for |
| WindowTheorems.BeforeTheEpoch | src/honeypot_ai/endpoint.py:605-606 | a time whose window does not contain it |
| WindowTheorems.WindowsDisjoint | src/honeypot_ai/endpoint.py:598-610 | two windows of one endpoint and role never overlap |
| WindowTheorems.NothingLost | src/honeypot_ai/endpoint.py:309-439 | summed over the stored windows: every selected event once, every selected packet once, every byte of both |
| WindowMeaning.CountsMean | src/honeypot_ai/endpoint.py:334-429 | each of the 23 counting features is the number of the window's events and packets that show its fact |
| WindowMeaning.TrafficMeans | src/honeypot_ai/endpoint.py:405-440 | the bytes out are what the endpoint sent, as source or in answer; the bytes in are all other bytes of the window's items; the seconds are theirs |
| WindowMeaning.NamesMean | src/honeypot_ai/endpoint.py:312-319 | seven sizes are the numbers of different peers, protocols, event types, URLs, domains, hashes and binaries that the window's items show |
| WindowMeaning.PortsMean | src/honeypot_ai/endpoint.py:312-319 | and the eighth that of their destination ports |
| WindowMeaning.WindowsAre | src/honeypot_ai/endpoint.py:94-165 | there is a window for exactly the keys to which some item goes, and it ends its width after its start |
| WindowMeaning.GoesToIff | src/honeypot_ai/endpoint.py:94-165 | an item goes to the window of its endpoint, role and time, or of the epoch if it has none |
| WindowMeaning.ProtectedEndpoint | src/honeypot_ai/endpoint.py:541-568 | with protected networks the protected end is the endpoint, and the role says which end that is |
| WindowMeaning.LikelyEndpoint | src/honeypot_ai/endpoint.py:541-568 | without them a private destination comes first, then a private source, then any address |
| WindowMeaning.HostEndpoint | src/honeypot_ai/endpoint.py:455-475 | a sensor event without such an address goes to its host |
| WindowTheorems.LabelsMonotone | src/honeypot_ai/endpoint.py:176-200 | more items in any position keep a malicious window malicious and keep its reasons |
| WindowLabels.LabelMeans | src/honeypot_ai/endpoint.py:176-200 | read off the raw events: a window names a reason if and only if events of that window show each fact behind it, each once and in the order in which they are tried, and is malicious if and only if some reason holds |
| WireFormat.WireRoundTrip | crates/ebpf-sensor/src/lib.rs:212-274 | decoding an encoded record gives it back, or names its unknown schema version |
| WireFormat.BytesRoundTrip | crates/ebpf-sensor/src/lib.rs:212-274 | encoding a decoded record gives the bytes back with their padding zeroed |
| WireFormat.SignedRoundTrip | crates/ebpf-sensor/src/lib.rs:1236-1247 | signed 64-bit fields survive, negative ones too |
| WireFormat.KernelSize | crates/ebpf-sensor-ebpf/src/main.rs:43-66 | the kernel's struct, laid out by the C rule, has the record's size |
| WireFormat.KernelOffset | crates/ebpf-sensor-ebpf/src/main.rs:43-66 | and each field at the decoder's offset |
| WireFormat.KernelImageDecodes | crates/ebpf-sensor-ebpf/src/main.rs:43-66 | so the kernel's memory image of a record decodes field for field, whatever its padding holds |
| WireFormat.EncodeIsKernelImage | crates/ebpf-sensor/src/lib.rs:250-274 | and the encoder's own bytes are such an image |
| KernelStruct.StructDecodes | crates/ebpf-sensor-ebpf/src/main.rs:43-66 | memory that holds each field of the struct, listed by name and offset, decodes to that record |
| KernelStruct.EncodedIsStruct | crates/ebpf-sensor/src/lib.rs:250-274 | and the encoder writes such memory, with zeros for padding |
| KernelStruct.StructLayout | crates/ebpf-sensor-ebpf/src/main.rs:43-66 | the C rule puts the named fields at the listed offsets |
| KernelStruct.LittleEndianDigits | crates/ebpf-sensor/src/lib.rs:250-274 | byte by byte, the lowest digit comes first |
| WireCodec.ToBytes | crates/ebpf-sensor/src/lib.rs:250-274 | the buffer filled through a moving offset is the encoding |
| WireCodec.FromBytes | crates/ebpf-sensor/src/lib.rs:212-248 | the record read through a moving offset is the decoding, with both error cases |
| WireCodec.WriteFixed | crates/ebpf-sensor/src/lib.rs:1254-1257 | one field written at its place and nothing else |
| WireCodec.ReadFixed | crates/ebpf-sensor/src/lib.rs:1249-1252 | one field read from its place |
| Fnv.StableHash | crates/ebpf-sensor/src/lib.rs:1059-1066 | the loop computes the hash and its sixteen digits |
| Fnv.StepBijective | crates/ebpf-sensor/src/lib.rs:1061-1064 | each per-byte step is a bijection on 64-bit states, with its inverse |
| Fnv.SuffixKeepsApart | crates/ebpf-sensor/src/lib.rs:1061-1064 | a common suffix never merges two states |
| Fnv.HexInjective | crates/ebpf-sensor/src/lib.rs:1065 | the hexadecimal form is injective |
| Fnv.HexMeans | crates/ebpf-sensor/src/lib.rs:1065 | the id is the hash in sixteen lower-case hexadecimal digits, read as a number |
| Fnv.XorBits | crates/ebpf-sensor/src/lib.rs:1062 | a bit of an exclusive or is set exactly if the two bits differ |
| Fnv.TestVectors | crates/ebpf-sensor/src/lib.rs:1059-1066 | the hashes of the empty text, "a" and "foobar" are those of the draft |
| Fnv.OneByteApart | crates/ebpf-sensor/src/lib.rs:1059-1066 | texts that differ in exactly one byte never share an id |
| Fnv.SuffixKeepsIdsApart | crates/ebpf-sensor/src/lib.rs:1059-1066 | ids agree after a common suffix if and only if they agreed before it |
| Ipv4Text.WriteByte | crates/ebpf-sensor-ebpf/src/main.rs:331-338 | a byte is written if it fits before the terminator |
| Ipv4Text.WriteU8Decimal | crates/ebpf-sensor-ebpf/src/main.rs:314-329 | the decimal digits of an octet, clipped to the room left |
| Ipv4Text.WriteIpv4Addr | crates/ebpf-sensor-ebpf/src/main.rs:303-312 | the dotted text, clipped to the buffer's room |
| TextBuffers.SetStr | crates/ebpf-sensor-ebpf/src/main.rs:340-346 | a string laid over a buffer's front |
| TextBuffers.KernelStringRoundTripIff | crates/ebpf-sensor-ebpf/src/main.rs:340-346 | exactly which texts the sensor reads back whole from a zeroed kernel buffer |
| TextBuffers.CopyString | crates/ebpf-sensor/src/lib.rs:1259-1267 | a string in a buffer, clipped, the rest zero |
| TextBuffers.BufferRoundTripIff | crates/ebpf-sensor/src/lib.rs:1259-1281 | a Unicode text survives such a buffer if and only if it is not empty, has no NUL, neither begins nor ends with whitespace, and its encoding fits, of which a replacement character at the end may lose two bytes |
| Utf8.CutDecodesIff | crates/ebpf-sensor/src/lib.rs:1274 | exactly how much of an encoding may be cut off for the lossy decoder to give the text |
| Utf8.SubpartIs | crates/ebpf-sensor/src/lib.rs:1274 | on any bytes: the decoder steps over the longest beginning of any character, gives the character that stands there whole, and otherwise U+FFFD |
| Utf8.TestVectors | crates/ebpf-sensor/src/lib.rs:1274 | characters of the examples of RFC 3629 and their bytes |
| TextBuffers.WhiteSpace | crates/ebpf-sensor/src/lib.rs:1274 | the characters trimmed are the 25 of Unicode's White_Space |
| Ipv4Text.AddressUnclipped | crates/ebpf-sensor-ebpf/src/main.rs:303-312 | sixteen zeroed bytes hold any address unclipped and terminated |
| Ipv4Text.AddressRoundTrip | crates/ebpf-sensor-ebpf/src/main.rs:303-338 | the dotted text parses back to the same four octets |
| Ipv4Text.PublicHintIff | crates/ebpf-sensor/src/lib.rs:1213-1234 | on an address text, the prefix test is non-membership in the RFC 1918 section 3 blocks and 127/8 |
| Ipv4Text.AddressJudged | crates/ebpf-sensor/src/lib.rs:1207-1234 | from the kernel's octets to the sensor's verdict, nothing is lost on the way |
| Ipv4Text.SwapReadsNetworkOrder | crates/ebpf-sensor-ebpf/src/main.rs:299-301 | a port loaded little-endian from network order is put right |
| Ipv4Packet.DatagramParsed | src/honeypot_ai/packets.py:38-68 | every datagram of RFC 791, with options of any length and any trailer behind it, is parsed to its own addresses, protocol and length; the ports are its own if and only if it needs none, it is a first fragment that holds them, or too few bytes follow to misread |
| Ipv4Packet.InventedPorts | src/honeypot_ai/packets.py:56-58 | a later fragment and a padded short datagram, both given ports they do not have |
| Ipv4Packet.AcceptedIff | src/honeypot_ai/packets.py:44-50 | the parser accepts the bytes that begin with a header of the layout and nothing else |
| Ipv4Packet.AcceptedDatagramIff | src/honeypot_ai/packets.py:44-50 | what it accepts is a datagram with a trailer if and only if the total length, which it does not check, lies between the header's length and the data's |
| Ipv4Packet.FrameParsed | src/honeypot_ai/packets.py:29-35 | an Ethernet frame around a datagram is parsed with the frame's length |
| Ipv4Packet.FramePortsRightIff | src/honeypot_ai/packets.py:29-35 | and its ports are the datagram's own under the same condition, the frame's padding being the trailer |
| Ipv4Packet.ProtocolMeans | src/honeypot_ai/packets.py:120-127 | three assigned protocol numbers by name, every other by the number, which can be read back |
| Ipv4Packet.ProtocolNameInjective | src/honeypot_ai/packets.py:120-127 | protocols keep distinct names |
| Pcap.IterPcap | src/honeypot_ai/packets.py:71-100 | the packets of the frames read, in order, and the error raised after them |
| Pcap.ReadRecord | src/honeypot_ai/packets.py:86-97 | one turn of the reading loop |
| Pcap.FileRoundTrip | src/honeypot_ai/packets.py:71-100 | any list of frames written in either byte order is read back whole |
| Pcap.FileCut | src/honeypot_ai/packets.py:71-100 | however the file is cut, exactly the frames before the cut are read, and an error is raised if and only if the cut is inside the header or a record |
| Pcap.WrittenBack | src/honeypot_ai/packets.py:85-97 | frames read from any bytes, written again, are those bytes up to where reading stopped |
| Pcap.AcceptedIff | src/honeypot_ai/packets.py:71-100 | a file is read without an error if and only if it is some capture written out |
| Pcap.MagicIs | src/honeypot_ai/packets.py:76-85 | the microsecond or the nanosecond number of the layout, written in either byte order, and the reader tells the order from it |
| Pcap.TimestampRightIff | src/honeypot_ai/packets.py:77-97 | a timestamp is the record's true time exactly if the magic is the microsecond one or the fraction is zero |
| Pcap.NanosecondCapture | src/honeypot_ai/packets.py:77-97 | a whole capture file whose packet carries a wrong time |
| Pcap.CaptureRoundTrip | src/honeypot_ai/packets.py:71-100 | a capture of datagram frames, written in either byte order, is read back as exactly the packets seen in them, in order |
| SingleFlight.FlagMeansOneOwner | src_web/main.rs:1897-1940 | in every reachable state the flag is up if and only if an owner exists, and there is never a second one |
| SingleFlight.FlagFollowsOwner | src_web/main.rs:1899-1940 | the flag falls in exactly the steps in which the owner lets go, and rises only for a new owner |
| SingleFlight.RejectedIff | src_web/main.rs:1899-1906 | a request is turned away if and only if another one owns the flag |
| SingleFlight.PageShowsLastCompletion | src_web/main.rs:1859-1890 | a page that does not say it is loading shows the summary of the last completed generation |
| SummaryHistory.FateOfRequest | src_web/main.rs:1908-1940 | over all runs: a request gives up exactly if its own query failed or found nothing, generates exactly if it found events, and carries the text or the error with which its own process ended |
| SummaryHistory.LastCompletion | src_web/main.rs:1926-1940 | the last completion is that of the request that cleared the flag last |
| SummaryHistory.PageShows | src_web/main.rs:1859-1890 | a page that found the flag down shows what the last completed request's process ended with, or that there is nothing |
| SummaryHistory.PageLooked | src_web/main.rs:1859-1890 | and a page says it is loading exactly if the flag was up when it looked |
| SingleFlight.OwnerRunsDown | src_web/main.rs:1908-1940 | whatever the query and the process answer, each of the owner's steps, at most six, brings it nearer to releasing the flag, and the last one does |
| SingleFlight.FlagNeverSticks | src_web/main.rs:1908-1940 | from every reachable state the flag can still fall |
| ImportFlight.FlagMeansOneImport | src_web/main.rs:727-749 | in every reachable state the import flag is up if and only if a queued import exists, there is never a second one, and none waits for the lock |
| ImportFlight.RefusedIff | src_web/main.rs:702-749 | a queued import is refused if and only if another one owns the flag, at the refresh's look or at the swap |
| ImportFlight.OwnerRunsDown | src_web/main.rs:735-749 | the owner can always go on, and is at most three steps from clearing the flag |
| ImportFlight.ConflictIff | src_web/main.rs:610-624 | a request for a sync run is refused if and only if another run holds the sync lock |
| ImportHistory.FateOfImport | src_web/main.rs:726-749 | over all runs: an import is done exactly if it took the lock, gave it back and cleared the flag, and one that is refused takes none of these steps |
| ImportHistory.FlagAnswered | src_web/main.rs:702-737 | an import is refused for good if the flag was up when it looked or swapped, and otherwise owns it until it is done |
| ImportHistory.ImportBegins | src_web/main.rs:600-608 | an import that a refresh asked for looks at the flag first, one that an operator asked for never does |
| ImportHistory.FateOfSync | src_web/main.rs:619-671 | a sync run imports between its own two steps while it holds the sync lock, and lets go after that or without it |
| ImportHistory.SyncAnswered | src_web/main.rs:614-618 | a sync run is refused for good exactly if the lock was held when it was tried |
| ImportHistory.SyncRunsDown | src_web/main.rs:619-622 | whatever collecting gives, the holder of the sync lock is at most three steps from letting go of it |
| ImportFlight.OneOfEach | src_web/main.rs:614-668 | of two imports under way at once, exactly one is a sync run's |
| ImportFlight.OverlapIff | src_web/main.rs:614-732 | two imports are under way at once if and only if the import lock is held while the holder of the sync lock imports |
| ImportFlight.SerialWithoutSyncs | src_web/main.rs:726-749 | in a run without an import by a sync run there are never two |
| ImportFlight.OverlapAhead | src_web/main.rs:614-749 | from every reachable state some continuation has a queued import and a sync run's under way at once |
| ImportFlight.SyncOverlaps | src_web/main.rs:664-668 | a run from the start in which two are |
| ReportStore.Database.ImportReportFile | src_web/main.rs:751-878 | an import deletes what its path had and inserts the report with its rows; a failing one changes no table |
| ReportStore.InsertRows | src_web/main.rs:802-875 | one row per item, in order, all of the new report |
| ReportTheorems.DeleteReportsLeft | src_web/main.rs:758-774 | deleting old ids removes exactly their reports and child rows |
| ReportTheorems.ImportKeeps | src_web/main.rs:751-878 | one report per path, no orphan rows and four right counts are kept |
| ReportTheorems.OthersUntouched | src_web/main.rs:758-774 | other paths' reports and rows are untouched |
| ReportTheorems.ImportHeals | src_web/main.rs:758-774 | a path stored several times is stored once after an import |
| ReportTheorems.ImportAssigns | src_web/main.rs:751-878 | seen by path, an import is an assignment |
| ReportTheorems.ReimportIdempotent | src_web/main.rs:751-878 | importing again changes only id and time |
| ReportTheorems.AlwaysConsistent | src_web/main.rs:751-878 | the invariant holds after every sequence of imports, failed ones among them |
| ReportTheorems.CountsStored | src_web/main.rs:778-800 | and the four counts stored with each report are the numbers of its rows in the four tables |
| ReportTheorems.LastImportStands | src_web/main.rs:751-878 | each path then holds exactly what its last successful import brought |
| ReportTheorems.RefreshQueuesIff | src_web/main.rs:702-724 | a refresh queues a file if and only if no import is running and its last successful import did not carry that modification time |
| AnomalyScores.RobustAnomalyScores | src/honeypot_ai/detectors.py:91-112 | the loop's scores by session key |
| AnomalyScores.TotalScore | src/honeypot_ai/detectors.py:101-111 | one session's capped sum over the columns |
| AnomalyScores.MedianSplits | src/honeypot_ai/detectors.py:97 | at most half of a column lies above its median, and at most half below |
| AnomalyMeaning.MedianMeans | src/honeypot_ai/detectors.py:97 | a median is the middle value by rank, or the mean of the two middle ones |
| AnomalyMeaning.MiddleUnique | src/honeypot_ai/detectors.py:97 | and nothing else is |
| AnomalyMeaning.MadMeans | src/honeypot_ai/detectors.py:115-117 | a deviation is the middle of the distances from the median |
| AnomalyMeaning.PartInDeviations | src/honeypot_ai/detectors.py:107-111 | a value so many deviations above the median adds 0.6745 times as many, up to ten |
| AnomalyMeaning.PartOfOne | src/honeypot_ai/detectors.py:107-111 | one deviation above adds exactly 0.6745 |
| AnomalyMeaning.PartWithoutDeviation | src/honeypot_ai/detectors.py:103-106 | without deviation, what it lies above the median, up to ten |
| AnomalyMeaning.PartRescaled | src/honeypot_ai/detectors.py:97-111 | other units and another origin change no part where the deviation is not zero |
| AnomalyMeaning.ScoreMeans | src/honeypot_ai/detectors.py:100-112 | a score is the sum of the fifteen parts |
| AnomalyMeaning.KeyedLast | src/honeypot_ai/detectors.py:100-112 | of sessions with one key the last one's score is kept |
| AnomalyScores.PartBounds | src/honeypot_ai/detectors.py:103-110 | a column adds to a score exactly above its median, and at most ten |
| AnomalyScores.ScoreBounds | src/honeypot_ai/detectors.py:91-112 | scores lie in [0, 150], and are 0 exactly at or below every median |
| AnomalyScores.SumOfScores | src/honeypot_ai/detectors.py:91-112 | all scores together are at most 150 for every second session |
| AnomalyScores.ScoreUnordered | src/honeypot_ai/detectors.py:95-98 | a score does not depend on the order of the sessions |
| AnomalyScores.ScoresUnordered | src/honeypot_ai/detectors.py:91-112 | nor does the whole result, with one session a key |

## Left out

- Floating point: scores, rates, features, timestamps and durations are reals, without rounding, NaN or infinities.
- Calibration.ThresholdCandidates: `argsort` and `nextafter` are any descending arrangement and any value above all scores.
- ThresholdSelection.SelectCalibrationThreshold: the best-F1 threshold and the training quantile come from libraries and are parameters; an unknown objective name, which raises, is not a value of the model.
- JsonReport.TopLevelArrayStart: names are compared as raw bytes, as the code does, so two spellings of one name are two names; a text that is not valid UTF-8 is rejected before the scanners see it and is not modelled.
- JsonReport.SliceIsTheArray: what the JSON library does with the slice is not modelled. The grammar allows any bare token where section 3 of RFC 8259 allows only numbers and three literals, so the theorems cover more texts than the standard has.
- TailerRuns.NothingSkipped: files only grow (a replaced file is the subject of `TailerRotation`), a poll does not overlap growth, and damage to the checkpoint loses entries or makes it unreadable but invents no offset (`TailerBlocked.StuckForever` also takes negative ones).
- Tailer.Host.StreamOnce: sinks record the raw lines handed over, in place of the records built from them. Which lines can be parsed is a predicate on their bytes, analysis itself does not fail, UTF-8 replacement of bad bytes keeps the line structure, and the dashboard preview is left out.
- WindowBuilder.BuildEndpointWindows: SHA-1 window ids are left out. Token, path and address tests are booleans of the event or predicates, and protocol texts are taken in lower case.
- WireCodec.FromBytes: the meaning of the kind byte and the record builders are left out.
- Ipv4Text.WriteIpv4Addr: the sockaddr reads and the map calls around it are the kernel's.
- Ipv4Packet.DatagramParsed: a missing timestamp, which becomes the current time, is a parameter. Live capture is left out.
- SingleFlight.PageShowsLastCompletion: panics and lock poisoning are left out, and HTML is reduced to what is shown.
- ReportStore.Database.ImportReportFile: each import is atomic, and the theorems about sequences take them one after another. `ImportFlight.SyncOverlaps` shows that two can run at once; the database's isolation of the two is not modelled. The projection of an item's fields into columns is left out, and table rows are kept in insertion order.
- AnomalyScores.RobustAnomalyScores: the features themselves, the heuristic score and the findings built on both are left out.
- The scikit-learn, River and NumPy code, the HTTP handlers, HTML, authentication, the language-model process, the log parsers, the Wazuh, Splunk and MISP clients and eBPF attachment: foreign code, or field dispatch without an algorithm.
