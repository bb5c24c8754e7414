# Verified models of the fabric's algorithms and state machines

A Dafny model of the parts of the communication fabric and its dependency-graph tool where correctness is not
obvious from reading one function, with machine-checked proofs of what they promise. `dafny verify dfyconfig.toml`
checks everything.

| file | models |
|---|---|
| `Digraphs.dfy` | directed graphs, walks, cycles; two graph-theory facts the algorithms rest on |
| `CycleDetection.dfy` | the three-colour depth-first search behind both `detect_cycles` |
| `KahnSort.dfy` | the in-degree sort behind both `topological_sort`, with its cycle remainder |
| `CycleAgreement.dfy` | how the reported cycles and the remainder fit together |
| `DependencyParser.dfy` | the two functions on the file nodes of a taxonomy |
| `ImpactAnalysis.dfy`, `DependencyGraph.dfy` | the `Graph` class: edge indexes, domain filter, cycles, sort, impact levels |
| `StreamMerger.dfy` | `_merge_parallel_streams`: reader tasks, queues, polling consumer, under every schedule |
| `CircuitBreaker.dfy` | the circuit breaker with any number of calls in flight |
| `ChannelLifecycle.dfy` | the channel's lifecycle lock, sends, streams and metrics, under every schedule |
| `Retry.dfy` | the retry engine, the checkpoint-restore hook, back-off |
| `Utf8.dfy`, `Strings.dfy`, `SseCodec.dfy` | the incremental event-stream codec, on bytes |
| `SseStandard.dfy` | the codec against the event-stream interpretation of the HTML Standard, section 9.2.6 |
| `WsFraming.dfy` | WebSocket frames (RFC 6455, sections 5.2 and 5.3) |
| `RowRepair.dfy`, `RowKeywords.dfy` | realigning over-long CSV rows; which fields count as a severity or an effort |
| `RowRecovery.dfy` | when realigning gives back the row that was written |
| `RoundRobin.dfy` | round-robin selection |
| `Sequences.dfy` | shared facts about sequences |

Objects that the source updates in place are classes whose methods are proved against functions on values; the
lemmas are about those functions. Tasks of the event loop are modelled as steps that interleave only where the
source awaits or yields (the stream merger's steps are finer than that, so its schedules include all real ones).
Clocks, random keys, what a transporter's call comes to, what a stream produces, what the JSON library does and the
iteration order of Python sets are inputs, and every statement holds for all of them.

What the proofs show about the code where it differs from its documentation, or where a promise needs a condition:

- The sort lists importers before what they import; the documentation asks for dependencies first
  (graph/docs/Schema_Parser/dependency_graph_parsers.md:316). `DependenciesFirstExactly` says when the documented
  order comes out all the same, and `ImporterComesFirst` gives the smallest graph on which it does not.
- Without JSON the event-stream codec loses line breaks and trailing white space. `TextRoundTripExactly` gives the
  exact class of texts that survive.
- `SseStandard.AgreesExactly` says on which event streams the codec agrees with the HTML Standard: it also yields
  frames without data and an unfinished last frame, which the standard drops.
- `impact_analysis` shares one `visited` set over all levels, so with a small depth it can miss a dependent that
  lies within the depth: on the graph of `CrossingMissesWithinDepth` it always does. `VisitedExactly` says what a walk
  finds, `MissedOnlyByDetour` what it takes to miss something, and `CompleteWithoutDetours` and `CompleteAtLargeDepth`
  give conditions on the graph and on the depth under which nothing is missed.
- A channel does not record which connection a send belongs to, so a late permanent error can fail a connection that
  was opened after it. `ReopenedChannelFailsExactly`: this can follow a close exactly when the close began while some
  send or stream was under way. `QuietClosesFailOwnConnection` is the safe half for whole runs.
- A failure stamped with clock value zero keeps a circuit open until another failure is recorded, whatever calls come
  and however late: `LockedOutExactly`; `ZeroStampIsReachable` gives a run for every configuration.
- Realigning an over-long CSV row does not always give back the row that was written: `UnanchoredRowsRecover`,
  `BugRowsRecover` and `MissingRowsRecover` say exactly when it does.

## Model

| member | source | states |
|---|---|---|
| CycleDetection.CycleThrough | graph/parsers/dependency_parser.py:158-166 | the walk along parent links reaches the gray node before it runs out of parents and yields exactly the stretch of the active path from that node on |
| CycleDetection.CycleSearch.ReportCycle | graph/parsers/dependency_parser.py:156-167 | a back edge adds one cycle, which the edge closes; everything known about finished nodes is kept |
| CycleDetection.CycleSearch.Dfs | graph/parsers/dependency_parser.py:151-171 | a visit terminates because white nodes shrink, restores the active path, finishes its node after the targets of all edges that close no reported cycle, and closes its edges to gray nodes once per listing |
| CycleDetection.CycleSearch.Search | graph/parsers/dependency_parser.py:173-175 | the outer loop finishes every node |
| CycleDetection.DetectCycles | graph/parsers/dependency_parser.py:142-177 | every reported list is an elementary cycle; every directed cycle of the graph uses the closing edge of a reported one; cycles are reported exactly when the graph has one; and for each closing edge as often as the edge is listed, or never |
| Digraphs.RanksCutEveryCycle | graph/parsers/dependency_parser.py:151-171 | if finishing ranks fall along all edges but the closing ones, every cycle uses a closing edge |
| Digraphs.CycleBehind | graph/parsers/dependency_parser.py:207-211 | pigeonhole: in a finite set where every node has a predecessor, every node is reached from a cycle |
| Digraphs.NoCycleTwice | graph/parsers/dependency_parser.py:151-177 | where no successor is listed twice no cycle is reported twice |
| DependencyParser.DetectCycles | graph/parsers/dependency_parser.py:142-177 | the cycle report holds for the graph restricted to file nodes, and only file nodes occur in it |
| DependencyParser.TopologicalSort | graph/parsers/dependency_parser.py:180-211 | the returned list is the emitted ids, then one marker with the remaining ids, once each in list order, exactly when the restricted graph has a cycle |
| KahnSort.InDegrees | graph/parsers/dependency_parser.py:187-192 | the table counts, with repetition, the edges into each node, whatever the order of the edge dictionary |
| KahnSort.Release | graph/parsers/dependency_parser.py:201-205 | taking out an emitted node's edges never makes a count negative, and the nodes that drop to zero are queued once each |
| KahnSort.Emit | graph/parsers/dependency_parser.py:197-205 | one turn keeps the counts equal to the edges from nodes not yet emitted, and keeps sources before targets |
| KahnSort.EmitKeepsLayers | graph/parsers/dependency_parser.py:194-205 | first in, first out: the queue never holds more than two levels, and levels rise along what is emitted and queued |
| KahnSort.Sort | graph/parsers/dependency_parser.py:187-211 | no id is emitted twice; sources come strictly before targets; ids come in the order of the longest chain of edges that leads to them; emitted and remaining partition the nodes; remaining is exactly what is reached from a cycle, in list order |
| KahnSort.StuckExactlyBehindCycles | graph/parsers/dependency_parser.py:207-211 | when the queue runs dry the unemitted nodes are those reached from a cycle |
| KahnSort.DependenciesFirstExactly | graph/parsers/dependency_parser.py:197-205 | the documented dependencies-first order comes out exactly when every edge leads to a node behind a cycle |
| KahnSort.ImporterComesFirst | graph/parsers/dependency_parser.py:197-205 | on one import between two files the importer is emitted first |
| CycleAgreement.RemainingLieBehindReport | graph/parsers/dependency_parser.py:142-211 | both algorithms agree: one reports a cycle exactly when the other leaves a node over, and the remainder is what lies behind the reported cycles |
| DependencyGraph.Graph.AddEdge | graph/__init__.py:114-120 | both indexes gain the pair, in opposite directions, and nothing else changes |
| DependencyGraph.Graph.AddEdges | graph/__init__.py:63-64 | a run of added pairs keeps the indexes converse |
| DependencyGraph.RunKeepsConverse | graph/__init__.py:114-120 | after any run of `_add_edge` the reverse index is the converse of the forward one, and from an empty graph both hold exactly the added pairs |
| DependencyGraph.Graph.Relevant | graph/__init__.py:134-137 | the ids looked at are the nodes of the domain, or all nodes when none or the empty one is given |
| DependencyGraph.Graph.DetectCycles | graph/__init__.py:133-165 | the cycle report holds for the nodes of the given domain, or all nodes; no cycle comes twice, each follows edges of the graph, and no id of another domain occurs |
| DependencyGraph.Graph.TopologicalSort | graph/__init__.py:167-192 | emitted ids, then a marker carrying the remainder and a cycle report of the same graph; exactly the ids of the domain occur |
| DependencyGraph.MarkerCarriesItsCycles | graph/__init__.py:188-191 | the marker appears exactly when there is a cycle, and its cycles then account for its whole remainder |
| DependencyGraph.Graph.ImpactAnalysis | graph/__init__.py:194-209 | the result is the listing, in visiting order, of a depth-first walk from the root that never enters an id twice: each visit is called from the last visit one level up, and by the return of a visit above the depth bound every direct dependent has been visited, before it or below it |
| ImpactAnalysis.ImpactWalk.Collect | graph/__init__.py:197-207 | one recursive call extends the walk, keeps all of that for the calls still active, and enters its id unless it lies past the depth bound |
| ImpactAnalysis.ImpactIsSound | graph/__init__.py:194-209 | the dictionary has exactly the levels visited; under level k it lists distinct known ids, each at the end of a repeat-free chain of exactly k reverse edges; no id is listed under two levels |
| ImpactAnalysis.VisitedExactly | graph/__init__.py:197-207 | an id is visited exactly when some chain from the root leads to it without passing an id visited at the depth bound |
| ImpactAnalysis.LaterDependentsLieBelow | graph/__init__.py:197-207 | a direct dependent of an id above the depth bound that is visited later is visited at a deeper level |
| ImpactAnalysis.MissedOnlyByDetour | graph/__init__.py:197-207 | a dependent within the depth is missed only if every such chain to it passes an id, not the root, that was visited by a repeat-free chain of exactly `depth` steps |
| ImpactAnalysis.CompleteWithoutDetours | graph/__init__.py:194-209 | where no id nearer than the depth also ends a repeat-free chain of exactly `depth` steps, every walk finds everything within the depth |
| ImpactAnalysis.CrossingMissesWithinDepth | graph/__init__.py:194-209 | on a graph of five ids every walk of depth two, in any order of iteration, misses one of two dependents that are two steps away |
| ImpactAnalysis.CompleteAtLargeDepth | graph/__init__.py:194-209 | with a depth of at least the number of ids in the edge relation the visited ids are the root and all its transitive dependents |
| StreamMerger.MergeIsFaithful | src/transport/composite.py:294-354 | for every schedule `active` counts the polled queues, output per child is a prefix of its stream, and on a regular end all streams have ended and came through whole; the outcome follows from strategy and failures, and a transient raise carries the error of every failed child exactly once |
| StreamMerger.RunKeepsInv | src/transport/composite.py:314-341 | the queue discipline (data, then one end marker; output plus waiting data is what was read) holds at every moment of every schedule |
| StreamMerger.ConsumerFinishes | src/transport/composite.py:315-341 | once all streams have ended the consumer finishes within a bound given by what is queued |
| StreamMerger.PolledInTurn | src/transport/composite.py:315-341 | from any reachable unfinished state, a message waiting for a child has been dealt with after at most twice as many consumer turns as queues are polled, and two, whatever the readers do meanwhile, unless the merge failed fast |
| StreamMerger.ChildrenInOrder | src/transport/composite.py:316-323 | within a pass children are polled in their order: of two messages waiting when it begins, that of the earlier child is dealt with before anything of the later one is taken |
| StreamMerger.Merge.Poll | src/transport/composite.py:316-338 | taking one message changes queues, counters, errors and output as the step relation says |
| StreamMerger.Merge.Turn | src/transport/composite.py:315-354 | every consumer turn is a step of the schedules that the run lemmas are about |
| CircuitBreaker.AsyncCircuitBreaker.Admit | src/network/resilience/circuit_breaker.py:47-66 | the locked head of a call half-opens an open circuit whose time has come and admits unless the circuit is open |
| CircuitBreaker.AsyncCircuitBreaker.Succeeded | src/network/resilience/circuit_breaker.py:68-77 | recording a success is the step that the run lemmas are about |
| CircuitBreaker.AsyncCircuitBreaker.Failed | src/network/resilience/circuit_breaker.py:79-88 | recording a failure is the step that the run lemmas are about |
| CircuitBreaker.FailureCountIsMaxExcess | src/network/resilience/circuit_breaker.py:68-88 | while closed, the failure count is the maximum over all suffixes of the outcomes since closing of failures minus successes |
| CircuitBreaker.OpensExactlyAtThreshold | src/network/resilience/circuit_breaker.py:79-88 | a closed circuit opens exactly at a recorded failure with which some suffix reaches the threshold, and by nothing else |
| CircuitBreaker.CountsBelowThresholds | src/network/resilience/circuit_breaker.py:68-88 | for thresholds of at least one, closed implies failures below the threshold and half-open implies successes below theirs |
| CircuitBreaker.AdmissionRule | src/network/resilience/circuit_breaker.py:45-66 | an open circuit admits exactly when the recovery time since the last recorded failure has passed and that failure was not stamped zero; a rejection changes nothing |
| CircuitBreaker.LockedOutExactly | src/network/resilience/circuit_breaker.py:60-66 | an open circuit stays open in every continuation without a recorded failure exactly when its last failure was stamped zero |
| CircuitBreaker.ZeroStampIsReachable | src/network/resilience/circuit_breaker.py:60-88 | for every configuration some run leaves the circuit open with that stamp |
| CircuitBreaker.LastFailureIsStored | src/network/resilience/circuit_breaker.py:79-88 | in every interleaving the stored time is that of the last recorded failure, and exists whenever the circuit is not closed |
| CircuitBreaker.ClosesOnlyByRecovery | src/network/resilience/circuit_breaker.py:60-77 | a circuit closes only after being half-open ever since an open circuit let a call through, with no failure recorded since and exactly the required successes |
| ChannelLifecycle.LockedViewIsSettled | src/transport/channel/channel.py:48-81 | in every interleaving whoever takes the lock sees no transitional state, so the draining guards never apply and marking failed only turns active into failed |
| ChannelLifecycle.StateFollowsDiagram | src/transport/channel/channel.py:48-135 | the state changes only along the edges of the lifecycle diagram, and leaves a transitional state only by the task that entered it |
| ChannelLifecycle.StateTellsLastChange | src/transport/channel/channel.py:48-135 | in every interleaving the channel is active exactly when its last change was a successful opening, failed exactly when it was a failed opening or closing or a mark, closed exactly when it was a successful closing or there was none |
| ChannelLifecycle.MetricsAreExact | src/transport/channel/channel.py:97-122 | messages, bytes and errors equal the counts and the sum over the schedule |
| ChannelLifecycle.OperationsAreConserved | src/transport/channel/channel.py:97-135 | in every interleaving the sends and streams let through are those that came back plus those in the transporter, and the permanent errors are those marked plus those waiting for the lock |
| ChannelLifecycle.PendingFailureIsMarked | src/transport/channel/channel.py:105-135 | from any reachable state with a task waiting to mark the channel, at most one step of the lock holder, whichever way it ends, lets the mark happen, and leaves the channel failed or closed |
| ChannelLifecycle.LateErrorFailsReopenedChannel | src/transport/channel/channel.py:97-135 | from any reachable active state any send or stream under way, or already failing, can fail the channel after a clean close and a reopening |
| ChannelLifecycle.QuietClosesFailOwnConnection | src/transport/channel/channel.py:48-135 | in a run where every close, and every opening after a failure, finds no send or stream under way, a task that turns the channel failed does so on the connection it began on |
| ChannelLifecycle.ReopenedChannelFailsExactly | src/transport/channel/channel.py:48-135 | from a reachable active state some continuation that begins with a close lets an earlier task fail the reopened channel exactly when a send or stream is under way in that state |
| ChannelLifecycle.Channel.OpenHead | src/transport/channel/channel.py:48-66 | `open` up to its await: it suspends connecting, returns active, and raises only on a draining channel, which it leaves alone |
| ChannelLifecycle.Channel.OpenTail | src/transport/channel/channel.py:61-72 | `open` after its await: active when it returns, failed when it raises |
| ChannelLifecycle.Channel.CloseHead | src/transport/channel/channel.py:74-83 | `close` up to its await: it suspends draining, and returns only on a closed or draining channel |
| ChannelLifecycle.Channel.CloseTail | src/transport/channel/channel.py:84-95 | `close` after its await: closed when it returns, failed when it raises |
| ChannelLifecycle.Channel.TransitionToFailed | src/transport/channel/channel.py:131-135 | the locked body of `_transition_to_failed` leaves the channel closed if it was, and failed otherwise |
| Retry.ExecuteWithRetry | src/transport/retry.py:61-110 | the loop calls until the first attempt that succeeds or draws abort or restore, or to the limit; it sleeps once between calls; the report matches the end it came to |
| Retry.RunResultUnique | src/transport/retry.py:61-110 | that description admits one report, one number of calls and one list of delays |
| Retry.RunNumbers | src/transport/retry.py:72-110 | calls equal the first stopping attempt, retries one less, or both the limit on exhaustion; every failure report keeps the context's offset |
| Retry.LastErrorIsReported | src/transport/retry.py:72-110 | a failed run reports the error of its last call, classified unless it was a transport error, and no bytes; a successful one passes the operation's report on |
| Retry.HookDecides | src/transport/retry.py:50-59 | with a hook the run goes on exactly as long as it asks for another attempt, shown the context, the error, the attempt and the limit |
| Retry.CheckpointPolicy | src/session/hooks/retry_hooks.py:32-54 | under the checkpoint hook the exhausted exit is never taken, a permanent error is never retried and a passing one within the limit always is |
| Retry.DefaultPolicy | src/transport/retry.py:50-59 | without a hook exactly the transient faults are retried, and a transient failure is only reported after the last attempt; a hook that raises stops the run at the first fault |
| Retry.DelaysGrow | src/transport/retry.py:95-97 | delays are positive, capped, and non-decreasing for a factor of at least one |
| Retry.DelayRecurrence | src/transport/retry.py:95-97 | the first delay is the initial timeout, each next one the factor times the last, all cut at the cap, from which only a factor below one leads down |
| Retry.BackoffCapped | src/transport/retry.py:95-99 | total sleep is at most the number of delays times the cap |
| Retry.BackoffGeometric | src/transport/retry.py:95-99 | for a factor above one total sleep is at most the geometric sum of the uncapped delays |
| SseCodec.EncodeStream | src/presentation/codecs/sse_stream_codec.py:40-51 | one frame per object until the first that cannot be encoded |
| SseCodec.DecodeStream | src/presentation/codecs/sse_stream_codec.py:63-73 | for every cut into chunks the result is that of the batch leftmost-split meaning of all bytes together, which the following rows describe |
| SseCodec.DecodeOneFrame | src/presentation/codecs/sse_stream_codec.py:63-106 | an encoded frame is taken off the front whatever follows it |
| SseCodec.RestIsDroppedExactly | src/presentation/codecs/sse_stream_codec.py:71-73 | after complete frames a rest without delimiter is dropped exactly when it consists of tabs, line ends and blanks; any other yields one more object or a failure |
| SseCodec.EncodeStopsAtFailure | src/presentation/codecs/sse_stream_codec.py:40-51 | one frame for every object before the first whose library call fails, which ends the stream with an error; bytes objects never fail |
| SseCodec.BytesTravelAsText | src/presentation/codecs/sse_stream_codec.py:42-48 | bytes are sent as the text they decode to, with JSON or without, and come back as that text exactly when the text would |
| SseCodec.JsonRoundTrip | src/presentation/codecs/sse_stream_codec.py:63-106 | auto-JSON: frames of clean one-line texts that parse decode to the parsed objects |
| SseCodec.JsonRoundTripAnyChunks | src/presentation/codecs/sse_stream_codec.py:40-106 | from encoder to decoder over any re-chunking, objects whose JSON text is such a line and parses back are returned |
| SseCodec.TextRoundTripExactly | src/presentation/codecs/sse_stream_codec.py:40-99 | without JSON a list of strings survives the encoder and the decoder exactly when each is one line not ending in white space |
| SseCodec.DirtyComesBackShorter | src/presentation/codecs/sse_stream_codec.py:86-99 | any other string comes back as something shorter |
| SseStandard.LineAgreesExactly | src/presentation/codecs/sse_stream_codec.py:88-96 | the exact class of lines from which codec and HTML Standard take the same data |
| SseStandard.AgreesExactly | src/presentation/codecs/sse_stream_codec.py:63-99 | on streams of such lines, without JSON, codec and standard yield the same events exactly when every frame has a `data:` line and only tabs, line ends and blanks follow the last one |
| SseStandard.StandardReadsEncoded | src/presentation/codecs/sse_stream_codec.py:40-51 | any reader that follows the HTML Standard gets back the one-line strings that the encoder was given |
| Utf8.DecodesOrReplaces | src/presentation/codecs/sse_stream_codec.py:82 | decoding takes off a well-formed character if there is one in front, and otherwise replaces the longest front that could have started one, or a single byte |
| WsFraming.EncodeFrame | src/transport/_ws_framing.py:25-63 | byte by byte the frame of RFC 6455, section 5.2: the two header bytes, the length most significant byte first in the shortest form, the key, and the payload, of which byte i is masked with key byte i mod 4; only a length beyond 64 bits is refused |
| WsFraming.MaskPayload | src/transport/_ws_framing.py:52-59 | digit by digit byte i of the result is one exactly where payload byte i and key byte i mod 4 differ |
| WsFraming.UnmaskIsBitwise | src/transport/_ws_framing.py:93-98 | the same for unmasking; without a four-byte key the payload is returned |
| WsFraming.FrameIsOnTheWire | src/transport/_ws_framing.py:25-63 | whatever the message, its frame has that format |
| WsFraming.HeaderFields | src/transport/_ws_framing.py:65-91 | what the parser reads from any bytes, by the same format, and exactly when it finds them incomplete |
| WsFraming.ParseHeaderBytes | src/transport/_ws_framing.py:65-91 | the parser's result for complete and incomplete headers |
| WsFraming.UnmaskTwice | src/transport/_ws_framing.py:93-98 | unmasking undoes masking |
| WsFraming.XorIsBitwise | src/transport/_ws_framing.py:57-58 | the arithmetic exclusive or has a one exactly where the operands' digits differ |
| WsFraming.FramesReadBack | src/transport/_ws_framing.py:25-98 | any concatenation of encoded frames reads back as the messages sent, for every length form, masked or not |
| WsFraming.HeaderIsMinimal | src/transport/_ws_framing.py:40-49 | no header that announces the same length is shorter (RFC 6455, section 5.2) |
| WsFraming.TruncatedHeader | src/transport/_ws_framing.py:71-89 | a header cut short is reported incomplete |
| WsFraming.TruncatedFrame | src/transport/_ws_framing.py:65-98 | so is a frame cut short anywhere |
| RowRepair.MergeTail | graph/parsers.py:45-51 | the popping loop leaves the first columns alone and joins the rest into the last |
| RowRepair.FindSeverityIdx | graph/parsers.py:54-60 | finds the first severity from `start` on |
| RowRepair.FindEffortInList | graph/parsers.py:63-75 | despite its filter for late positions it finds the last effort value |
| RowKeywords.SeverityExactly | graph/parsers.py:6-58 | a field is a severity exactly when it is one of the five words, in any case, with dots after it and white space around |
| RowKeywords.EffortExactly | graph/parsers.py:7-69 | a field is an effort exactly when it is a size, a count with a unit or a range, in any case and with white space around |
| RowRepair.RepairMissing | graph/parsers.py:98-133 | the appended fields are the eight-column layout around the anchors; its two last-resort exits are dead |
| RowRepair.RepairConserves | graph/parsers.py:22-133 | every over-long row is repaired to exactly one field per header, and the fields partition the raw row into consecutive comma-joined blocks; any other row stays as it is; only an empty header raises |
| RowRepair.RepairKeepsText | graph/parsers.py:22-133 | apart from commas the repaired row reads like the raw one |
| RowRepair.UnanchoredColumns | graph/parsers.py:32-42 | category rows and rows of no known kind keep every column but the last |
| RowRepair.BugColumns | graph/parsers.py:78-95 | a bug row whose severity sits in the third column from the end keeps everything up to it and its last field, with the rest joined between; any other keeps all columns but the last, which takes all that is left |
| RowRepair.MissingColumns | graph/parsers.py:98-132 | a missing-component row keeps three columns, joins what precedes its first severity into column 3 and gets that severity in column 4; column 6 is its last effort value, or a fixed position when there is none or too few fields follow |
| RowRecovery.CutsAreForced | graph/parsers.py:22-133 | however a row's fragments are cut into joined blocks, if the blocks read like the row that was written then they are exactly its columns' fragments |
| RowRecovery.UnanchoredRowsRecover | graph/parsers.py:22-51 | a category row, or one of no known kind, written without quotes comes back exactly when only its last column has commas |
| RowRecovery.BugRowsRecover | graph/parsers.py:78-95 | a bug row comes back exactly when only the column after its severity has commas, if that is in the third column from the end, and otherwise when only the last column has |
| RowRecovery.MissingRowsRecover | graph/parsers.py:98-133 | a missing-component row comes back exactly when it has no commas, or its severity and its effort, if any, stand out among the fragments around them, or it has no severity and commas only in the last column; with a header that is not eight columns wide, only in the last case whatever its severity |
| RoundRobin.RoundRobinStrategy.Choose | src/network/algorithms/round_robin.py:18-31 | picks the counter's position among the healthy candidates, or all if none is healthy, and advances the counter; none only for an empty list |
| RoundRobin.Pool | src/network/algorithms/round_robin.py:19-23 | the rotation is over exactly the healthy candidates if there are any, otherwise over all; it is empty only for no candidates |
| RoundRobin.PoolPositions | src/network/algorithms/round_robin.py:19-23 | the pool is the candidates at exactly the positions that may be chosen, in list order: none twice, none left out |
| RoundRobin.RoundRobinStrategy.ChooseMany | src/network/algorithms/round_robin.py:18-31 | n consecutive selections from one list go through its pool in turn from where the counter stands; each of the k positions of the list that may be chosen is chosen n/k times, rounded down or up |
| RoundRobin.SelectionsAreFair | src/network/algorithms/round_robin.py:27-29 | the same count for any pool and any counter value |
| RoundRobin.Fair | src/network/algorithms/round_robin.py:27-29 | over any n consecutive selections every one of k positions is chosen n/k times, rounded down or up |

## Left out

- The recursion limit of the Python runtime: the depth-first searches are modelled with unbounded recursion.
- AST and CSV file reading, the module index and dependency matching, formatters, handlers, sockets: input and output.
- The critical-path walk and the summary of `Graph`: they would add only easy members.
- Node records keep only the id and the domain, the fields the graph algorithms read.
- WebSocket transport: src/transport/websocket.py does not parse, so frames are stated on the framing engine; reading a whole frame (four key bytes after the header when the mask bit is set) is the model's own composition of `parse_header` and `unmask_payload`.
- Consumers that abandon a merged stream, and cancellation of a channel's `open` or `close`: only tasks that run to an end are modelled.
- Channel timestamps and log output.
- CSV quoting: rows are taken as written without quotes, the case in which they come out over-long.
- Event names, ids and retry times of event streams, which the codec ignores.
- Floating point: delays and clock values are real numbers, so rounding and overflow of the power are not modelled.
- `stream_with_retry` awaits an async generator and cannot run; `GracefulAbortHook` is a single decision.
- The default error classifier is a keyword test; the engine is modelled with an arbitrary classifier.
- Hook results outside the three declared decisions.
- Lone surrogates in strings, which Python can hold and UTF-8 cannot encode; Unicode digits and case variants in the effort pattern, of which the model has the ASCII ones.
- Parallel send aggregation and the session dispatcher: they refer to fields that do not exist or compare an id with a number, so no theorem follows from them.
