# Drop-measurement harness: a verified model

The harness under `harness/internal` measures what an upgrade of the ambient-mesh data plane does
to TCP connections. On every node a probe and a load generator hold connections open and log what
happens to them; a roll watcher turns pod notifications into one window per drained node; the
analyzer joins the two on time stamps and connection ids and answers ERROR, FAIL or PASS.

This project models those parts and, above all, their composition.

| file | what it holds |
|---|---|
| `Model.dfy` | the value types: events, windows, anomalies, results |
| `Collections.dfy` | extremes, counting, Go's string order, sorted map keys |
| `VerdictSpec.dfy` | what a result means, stated without loops: `Outcome` |
| `Sorting.dfy` | the order of the attribution table |
| `Analyze.dfy` | `measure.Analyze`, loop for loop, proved to compute `Outcome` |
| `Diagnosis.dfy` | which reasons an input earns, and that exactly those are reported |
| `Meaning.dfy` | the reasons said of events and windows alone: inequalities between their instants |
| `Tables.dfy` | the table, the counts and the anomaly list, row by row and entry by entry, in those words |
| `EventTheorems.dfy` | event order, decomposition, conservation of resets, what a partial log changes |
| `WindowTheorems.dfy` | ownership arithmetic and the order of windows |
| `ListingOrder.dfy` | what the order of windows does to the anomaly list |
| `Identifiers.dfy` | `%d` and the connection and worker names built on it |
| `HeldConn.dfy` | the held-connection protocol as a machine, and the programs that run it |
| `EndToEnd.dfy` | any fleet of workers, any interleaving, any part of it logged, and what the analyzer says of it |
| `RollWatcher.dfy` | the informer's state machine against its notification history |
| `Readiness.dfy` | worker split, readiness gate, the countdown under every interleaving |
| `Version.dfy` | the chart version authority |
| `Clients.dfy` | the per-client observer |
| `Report.dfy` | the acceptance checklist |
| `Measure.dfy` | a whole measurement, from pod logs to exit code |

How the pieces meet:

- `Outcome(in_)` specifies the result. `Analyzer.Analyze` ensures `res == Outcome(in_)`, so each
  theorem about `Outcome` is one about the program.
- `FactsOf(in_)` is ten yes-or-no facts about an input. `Violates(in_, r)` says that the input earns
  reason `r`. `Diagnosis.VerdictExact` ties the anomaly list, the reason and the verdict to them.
- `Earned(events, windows, terms, r)` says the same of the instants alone, without any aggregate that the
  analyzer builds. `Meaning.EarnedExactly` and `Meaning.VerdictMeans` read the verdict in these words,
  `Tables.TableMeans`, `Tables.RecoveryOfRows`, `Tables.AffectedMean`, `Tables.AnomaliesMean` and
  `Tables.FieldsMean` every other field of the result.
- `Play(obs)` is the run of one held-connection worker over a script of what the network, the ticker
  and the contexts did. `HeldConn.LongWorker` and `HeldConn.HeldConnLoop` emit exactly that run.
  `HeldConn.ModesAreScripted`, `HeldConn.DialsAreScripted`, `HeldConn.BreaksAreScripted` and
  `HeldConn.KeepalivesAreScripted` read it off the script: a reset is a break with a connection-reset
  error of a held connection, and any other error ends it as an EOF.
- `FleetFacts(fleet, keep, windows, terms)` states the same ten facts about the workers' own dials, breaks and
  waits, read off their scripts, as far as a log that keeps the events of `keep` shows them.
  `EndToEnd.FleetVerdict` says that the analyzer's verdict on every interleaving of what was logged is
  the verdict of those facts. With `keep` everywhere true (`EndToEnd.WholeRecord`) they are the whole
  truth about the workers. The analyzer matches a connection's latest reset against its earliest
  reconnect; this is the true recovery gap only because the protocol never reuses an id, and that
  hypothesis is proved here, not assumed.
- `RunAll(nLong, actions)` runs the readiness countdown over any number of those same worker machines;
  each makes its callback where the program does.
- `Snapshot(h, grace, ws)` says which windows a notification history stands for.
- `EndToEnd.FleetTable` says what each row of the table tells of the workers' own waits.
- `Measure.RunMeasure` states its result and its exit code over its own arguments, and `Measure.FleetRun`
  joins them to the facts of the fleet whose logs it read.
- `Measure.MeasuredVerdict`, `Measure.MeasuredRun` and `Measure.MeasuredCutoff` put the pod logs, the
  cutoff, the fleet, the watcher and the analyzer together.

Modelling conventions. Instants and spans are integer nanoseconds; a recovery is compared with
`recoveryBoundSeconds * SECOND`. Strings are sequences of characters. A reference that may be nil is
an `Option`. A Go map that is ranged over is visited in an arbitrary order. A clock, a socket, a
ticker or a context is a script that the theorem quantifies over.

Hypotheses the theorems carry where they need them: held workers have distinct names (one id
sequence per process and name; `Identifiers.HolderNames` says exactly when node names give that,
`Identifiers.ShadowedNodes` names two that do not, and `Measure.HarnessVerdict` needs no more than
node names that do), the time stamps of one worker do not decrease,
and the time at which a log line was written is a function of its event.

Where code and comment differ, the model follows the code:

- `harness/internal/live/rollwatch.go:82-83` speaks of the earliest drain seen per node. The code
  keeps only the first deletion time it sees of each pod. `RollWatcher.EarliestShown` says exactly when
  that is the earliest one shown, `RollWatcher.DeliveryOrder` exactly when the order and number of
  deliveries cannot matter, and `RollWatcher.MovedDeletionMatters` gives two notifications with which
  they do.
- `harness/internal/live/rollwatch.go:92` calls the Ready pod the new pod. Any Ready pod that is not
  terminating counts, the old one included, so a roll whose replacement was never seen can pass
  (`RollWatcher.OldPodPasses`). `RollWatcher.ReplacementReady` and `RollWatcher.ReplacementTime` say
  exactly when a window's ready marker and its time are a replacement's, and
  `RollWatcher.HalfOpenPromise` exactly when the half-open error means what
  `harness/internal/measure/analyze.go:62-64` says it does.
- `harness/internal/load/load.go:339-345`: a Hold expiry is silent, yet the next session still emits
  a reconnect for the connection it closed, whose id was never reset (`HeldConn.HoldExpiryReconnects`).
  `HeldConn.ReconnectMeaning` says exactly when a reconnect recovers a broken connection.

Results that a reader might not expect:

- For windows as the watcher lists them, no listing order changes the result, even when drains begin
  together, but for the table of attributions and the anomaly list
  (`WindowTheorems.VerdictIgnoresWindowOrder`). The table is the same for every order exactly when no
  reset belongs to a window whose drain start another window shares (`WindowTheorems.TableOrder`). The
  anomalies are the same for every order exactly when no two windows overlap too far
  (`ListingOrder.AnomalyOrder`): an overlap is reported under whichever node is listed first, and that
  node is all that the order decides (`ListingOrder.AnomaliesIgnoreWindowOrder`).
- Three staggered windows of one length can share an instant exactly when the grace lies between minus
  two and plus four tolerances (`WindowTheorems.ThreeOwnersExactly`).
- A log that keeps everything from the first widened drain on keeps the table and the recovery time. It
  keeps the verdict exactly unless it lost every event that the verdict rests on
  (`EventTheorems.CutoffVerdict`), and it can lose them (`EventTheorems.CutoffCanShow`).
- PASS does not mean that any event was collected: `Diagnosis.EmptyStream` says when an empty stream passes.

## Model

| member | source | states |
|---|---|---|
| Analyzer.Analyze | harness/internal/measure/analyze.go:22-265 | the whole engine, phase by phase, returns the result that the loop-free specification names, for every input |
| Analyzer.AddErr | harness/internal/measure/analyze.go:38-40 | an error is appended to the errors and to all anomalies, and the slices stay the classes of the list |
| Analyzer.AddFail | harness/internal/measure/analyze.go:38-40 | the same for a failure |
| Analyzer.CountRaw | harness/internal/measure/analyze.go:42-50 | the two raw counters are the numbers of failed attempts and of resets in the stream |
| Analyzer.FlagPrereq | harness/internal/measure/analyze.go:52-55 | a missing prerequisite is flagged exactly once, as an error, and nothing else is added |
| Analyzer.FlagNoRollout | harness/internal/measure/analyze.go:57-60 | a fired trigger without windows is flagged exactly once, as an error |
| Analyzer.FlagPrerequisites | harness/internal/measure/analyze.go:52-60 | the two in this order |
| Analyzer.FlagHalfOpen | harness/internal/measure/analyze.go:62-69 | one error per window without a ready time, in window order, and nothing else is added |
| Analyzer.FlagOverlaps | harness/internal/measure/analyze.go:71-86 | one failure per pair of windows on different nodes that overlap by more than the tolerance, dated at the later start |
| Analyzer.FlagRow | harness/internal/measure/analyze.go:73-85 | the same for one window against all later ones |
| Analyzer.FlagPair | harness/internal/measure/analyze.go:74-84 | one pair is flagged exactly if all four end-to-start distances of different nodes exceed the tolerance |
| Analyzer.EarliestDrain | harness/internal/measure/analyze.go:88-96 | yields a drain start that no window precedes, and knows when there is none |
| Analyzer.AttributeReset | harness/internal/measure/analyze.go:267-283 | returns -1 exactly when no widened window contains the instant, otherwise the first index among those with the latest drain start |
| Analyzer.Judge | harness/internal/measure/analyze.go:113-134 | an event is charged to its owner, reported as an early death or as a drop, or ignored, as the specification of its kind and time demands |
| Analyzer.AttributeEvent | harness/internal/measure/analyze.go:113-147 | one turn of the loop keeps the aggregates equal to counts, reset sets and latest resets of the events read so far |
| Analyzer.AttributeResets | harness/internal/measure/analyze.go:98-147 | the aggregates end up holding, per window, the number of resets, the connections and their latest resets, and the anomalies are those of the events in order |
| Analyzer.FlagTwoWindows | harness/internal/measure/analyze.go:149-155 | the connections reset in two different windows are flagged, each once, in ascending order |
| Analyzer.EarliestReconnects | harness/internal/measure/analyze.go:157-167 | maps each reconnected id, and no other, to its earliest reconnect |
| Analyzer.ScanWindow | harness/internal/measure/analyze.go:187-206 | the window is recovered exactly if every reset connection came back, and both running maxima are maxima of the gaps seen |
| Analyzer.SummarizeWindow | harness/internal/measure/analyze.go:174-219 | a window's row is its specified attribution, and the run's flags absorb it |
| Analyzer.BuildAttribution | harness/internal/measure/analyze.go:169-219 | the rows of all windows, the affected windows, whether any connection is lost, and the longest gap of the run |
| Analyzer.CountAffectedNodes | harness/internal/measure/analyze.go:227-234 | the number of different nodes with a reset connection |
| Analyzer.FlagRecovery | harness/internal/measure/analyze.go:236-246 | a lost connection leaves no recovery time and one failure; otherwise the longest gap is reported and flagged when over the bound |
| Analyzer.FlagNewConns | harness/internal/measure/analyze.go:248-251 | any failed attempt in the stream earns one failure |
| Collections.SortedKeys | harness/internal/measure/analyze.go:299-306 | the keys in strictly ascending order, whatever order the map is ranged in |
| Collections.SortedUnique | harness/internal/measure/analyze.go:299-306 | a set of keys has one sorted listing, so map order leaves no trace |
| Collections.StrLessMeans | harness/internal/measure/analyze.go:220-225 | strings compare by their first difference, and a proper prefix comes first |
| AttributionOrder.StableSortSorts | harness/internal/measure/analyze.go:220-225 | the table is sorted by node and drain start, a permutation of the rows, and rows of equal key keep their order |
| AttributionOrder.OrderedUnique | harness/internal/measure/analyze.go:220-225 | without equal keys the sorted table depends on the set of rows only |
| VerdictSpec.OwnerExists | harness/internal/measure/analyze.go:267-283 | every instant inside some widened window has an owner |
| Diagnosis.OverlapExact | harness/internal/measure/analyze.go:71-86 | the quadratic scan flags something exactly when two windows of different nodes overlap too far |
| Diagnosis.EventsExact | harness/internal/measure/analyze.go:113-134 | early deaths and drops are flagged exactly when such an event exists, and the loop flags nothing else |
| Diagnosis.RecoveryExact | harness/internal/measure/analyze.go:236-246 | loss is flagged when some reset connection never came back; over-bound only without loss and exactly when some gap is too long |
| Diagnosis.VerdictExact | harness/internal/measure/analyze.go:22-265 | for every input: the reasons reported are exactly the reasons earned, the leading reason and the verdict follow, no anomaly exactly on PASS |
| Diagnosis.VerdictConditions | harness/internal/measure/analyze.go:16-21 | the precedence ERROR over FAIL over PASS as conditions on the raw input, both directions |
| Diagnosis.EmptyStream | harness/internal/measure/analyze.go:52-86 | a run that collected nothing passes exactly when its windows and its trigger earn no reason |
| Meaning.OwnerMeans | harness/internal/measure/analyze.go:267-283 | an instant belongs to window i exactly when the window, widened by the tolerance, contains it, none that does drains later and no earlier one as late; to none exactly when no widened window contains it |
| Meaning.OverlapMeans | harness/internal/measure/analyze.go:71-86 | two windows are flagged exactly when their nodes differ and between two instants more than the tolerance apart both run |
| Meaning.GapMeans | harness/internal/measure/analyze.go:187-206 | the gap of a connection in a window is the time from its latest reset charged to the window to its earliest reconnect, and there is none when that is before the reset or missing |
| Meaning.EarnedExactly | harness/internal/measure/analyze.go:22-265 | each of the ten reasons as a statement about the instants of events and windows, the tolerance, the bound in seconds and the two trigger flags |
| Meaning.VerdictMeans | harness/internal/measure/analyze.go:253-263 | ERROR exactly when one of the four distrusting reasons is earned, PASS exactly when none is, and the reason given is the earned one of highest precedence |
| Tables.TableMeans | harness/internal/measure/analyze.go:169-225 | one row per window, by node name and drain start, ties in window order: its window, the number of resets and of connections charged to it, recovered exactly when some were reset there and all came back, and then the longest wait among them |
| Tables.RecoveryOfRows | harness/internal/measure/analyze.go:236-246 | the run recovers after x exactly when no row with a reset is unrecovered and x is the longest recovery of a row |
| Tables.AffectedMean | harness/internal/measure/analyze.go:213-234 | the affected windows are those that a reset is charged to, the affected nodes theirs |
| Tables.FieldsMean | harness/internal/measure/analyze.go:26-50 | the copied fields, the default corroboration, and both raw counters as numbers of positions in the stream |
| Tables.AnomaliesMean | harness/internal/measure/analyze.go:38-251 | an anomaly is in the list exactly when events and windows call for it, with the connection, node and instant of its event, or the node and later drain start of its pair |
| EventTheorems.EventOrderIndependence | harness/internal/measure/analyze.go:42-265 | permuting the events changes no field of the result, and the anomalies only in order |
| EventTheorems.Decomposition | harness/internal/measure/analyze.go:42-265 | streams that measure different connections: the joint verdict is the worse one, the joint reason the earlier in precedence |
| EventTheorems.DecompositionCounts | harness/internal/measure/analyze.go:42-246 | failures and resets add up, the three returned tables line up row by row and their raw and distinct counts add up; the recovery is the longer one unless either side lost a connection |
| EventTheorems.ResetConservation | harness/internal/measure/analyze.go:42-147 | resets equal the raw resets of the table plus reported drops plus early resets: none lost, none counted twice |
| EventTheorems.DistinctWithinRaw | harness/internal/measure/analyze.go:135-142 | a window never counts more connections than resets and has both or neither |
| EventTheorems.LogCutoff | harness/internal/live/measure.go:213-241 | on causal streams a log that keeps everything from the first widened drain on keeps the table, the recovery time and the affected counts |
| EventTheorems.KeptFacts | harness/internal/live/measure.go:213-241 | for any partial log: deaths, drops and failed attempts are found exactly if such an event was kept |
| EventTheorems.LogCutoffFacts | harness/internal/live/measure.go:213-241 | the facts of a safe log, exactly: those three as far as kept, every other one unchanged, and with a window every drop kept |
| EventTheorems.CutoffVerdict | harness/internal/live/measure.go:213-241 | a safe log keeps the verdict if and only if it did not lose all the early deaths of an otherwise trusted run, nor all the failures and drops of an otherwise clean one |
| EventTheorems.CutoffReason | harness/internal/live/measure.go:213-241 | a safe log keeps the leading reason if and only if it did not lose all the events that reason rests on |
| EventTheorems.CutoffCanShow | harness/internal/live/measure.go:213-241 | for every ready window an early close turns from ERROR, and an early failed attempt from FAIL, to PASS when the log did not keep it |
| WindowTheorems.SharedBand | harness/internal/measure/analyze.go:267-283 | two windows of one length without an overlap anomaly share a band of at most three tolerances |
| WindowTheorems.AtMostTwoOwners | harness/internal/measure/analyze.go:267-283 | with a grace above four tolerances no instant lies in three widened windows |
| WindowTheorems.FourTolerancesIsTight | harness/internal/measure/analyze.go:267-283 | for every tolerance and every grace from minus two to plus four tolerances, three staggered windows that share an instant |
| WindowTheorems.ThreeOwnersExactly | harness/internal/measure/analyze.go:267-283 | for all graces and tolerances: such windows exist if and only if the grace is in that range |
| WindowTheorems.OwnerFollows | harness/internal/measure/analyze.go:272-283 | with different drain starts the same window owns an instant under every listing order |
| WindowTheorems.WindowOrderIndependence | harness/internal/live/rollwatch.go:125-142 | with different drain starts the listing order changes nothing but the anomaly list |
| WindowTheorems.VerdictIgnoresWindowOrder | harness/internal/live/rollwatch.go:125-142 | for one window per node and a common grace every listing order gives the same result, affected counts included, except for the table and the anomaly list, equal drain starts included |
| WindowTheorems.EqualDrainsMatter | harness/internal/measure/analyze.go:278-280 | in any such listing, swapping a window that is charged with a reset for another of the same drain start changes the table |
| WindowTheorems.TableOrder | harness/internal/live/rollwatch.go:125-142 | the table is the same for every listing order if and only if no reset belongs to a window whose drain start another window shares |
| ListingOrder.AnomaliesIgnoreWindowOrder | harness/internal/measure/analyze.go:71-86 | apart from the node an overlap is reported under, the anomalies are the same multiset for every listing order |
| ListingOrder.AnomalyOrder | harness/internal/measure/analyze.go:71-86 | the anomalies are the same multiset for every listing order if and only if no two windows of different nodes overlap too far |
| Identifiers.DecRoundTrip | harness/internal/probeconn/probeconn.go:115 | a rendered number is digits only and reads back as itself |
| Identifiers.DecMeans | harness/internal/probeconn/probeconn.go:115 | decimal notation: the last digit last, and no leading zero |
| Identifiers.DigitsMean | harness/internal/live/trigger_gitbump.go:294-302 | which characters are digits, and what a digit behind a number is worth |
| Identifiers.HeldIdInjective | harness/internal/probeconn/probeconn.go:114-124 | held ids are injective in name and generation, for all names |
| Identifiers.NewIdInjective | harness/internal/load/load.go:360 | short-lived ids are injective in name and attempt |
| Identifiers.HeldIsNotNew | harness/internal/load/load.go:360 | no held id equals a short-lived id, whatever the names |
| Identifiers.WorkerNodeInjective | harness/internal/load/load.go:236 | a worker name determines node and index |
| Identifiers.HolderNames | harness/internal/load/load.go:236 | probes and load workers of a set of nodes have distinct names exactly when no node is named like another's worker |
| Identifiers.ShadowedNodes | harness/internal/load/load.go:236 | two node names, one named like the other's first worker, with which holders share a name |
| HeldConn.HeldConnSeq.constructor | harness/internal/probeconn/probeconn.go:103-108 | a fresh sequence has handed out no id |
| HeldConn.HeldConnSeq.Next | harness/internal/probeconn/probeconn.go:110-124 | ids come out as 1, 2, 3, and every call but the first names the previous id as the one recovered |
| HeldConn.HoldAndTrickle | harness/internal/probeconn/probeconn.go:179-211 | follows the machine while it holds, emits a break with its kind or closes silently, and returns a reset exactly for a connection-reset error, an EOF for any other error, and a deliberate close for a cancellation or a Hold expiry; it is the first such observation that ends it |
| HeldConn.Establish | harness/internal/load/load.go:328-341 | a successful dial recovers the previous id or calls back once, then follows the machine until the hold ends |
| HeldConn.HeldSession | harness/internal/load/load.go:309-346 | follows the machine for one Hold session; the readiness callback has been made exactly if the sequence has dialled |
| HeldConn.LongWorker | harness/internal/load/load.go:278-307 | over all its sessions emits exactly the machine's run, under its own ids, and calls back once, if it ever dialled |
| HeldConn.HeldConnLoop | harness/internal/live/probe.go:79-112 | the probe's loop emits the same machine's run and signals readiness once, if it ever dialled |
| HeldConn.StreamBounded | harness/internal/load/load.go:314-346 | every emitted event belongs to a generation already dialled and to a stage already reached |
| HeldConn.StreamReconnects | harness/internal/load/load.go:328-330 | each reconnect bears the time of the dial after its connection, and every dial but the first reports one |
| HeldConn.StreamBreaks | harness/internal/probeconn/probeconn.go:195-208 | a break event tells how its connection ended |
| HeldConn.BreaksAreScripted | harness/internal/probeconn/probeconn.go:195-208 | the break events of a run are exactly the breaks of held connections in its script, each under the generation and instant at which it broke; it is a reset exactly when the error was a connection reset |
| HeldConn.LogReports | harness/internal/probeconn/probeconn.go:110-124 | each emission appears with its kind and instant, under `<name>-held-<n>` and the pod's node |
| HeldConn.ModesAreScripted | harness/internal/load/load.go:278-346 | a worker has stopped exactly after a cancellation and holds exactly when a dial has not been followed by a break or a Hold expiry |
| HeldConn.DialsAreScripted | harness/internal/load/load.go:314-330 | the n-th dial that finds no connection held opens generation n at its own instant, and there are no others |
| HeldConn.KeepalivesAreScripted | harness/internal/probeconn/probeconn.go:195-211 | the keepalives are exactly the round trips of held connections |
| HeldConn.CallbacksMean | harness/internal/load/load.go:328-334 | one readiness callback exactly if the script lets the worker dial |
| HeldConn.SilentClose | harness/internal/load/load.go:337-342 | a connection has a break event exactly when it did not end deliberately |
| HeldConn.ReconnectMeaning | harness/internal/load/load.go:328-345 | every dial after the first reports the previous connection recovered, and that connection broke exactly when it was not closed deliberately |
| HeldConn.HoldExpiryReconnects | harness/internal/load/load.go:339-345 | the script dial, Hold expiry, dial emits a reconnect of a connection that never broke |
| HeldConn.HeldStream | harness/internal/load/load.go:283-346 | generations only rise; in one generation only a keepalive, or a break before its reconnect, has a successor |
| HeldConn.StreamTimes | harness/internal/load/load.go:184-188 | events are dated in emission order when the clock does not run backwards |
| EndToEnd.ShortWorker | harness/internal/load/load.go:348-383 | one attempt event per dial, in order, with its outcome and instant, under `<name>-new-<n>` |
| EndToEnd.HarnessFleet | harness/internal/load/load.go:218-243 | the probes and load workers of nodes none of which is named like a worker form a fleet with distinct names |
| EndToEnd.InterleavingUnique | harness/internal/load/load.go:285-291 | in no interleaving, whole or partly logged, is an id reset twice or reconnected twice |
| EndToEnd.InterleavingCausal | harness/internal/probeconn/probeconn.go:89-95 | in no interleaving does a connection come back before it was reset |
| EndToEnd.AttributionExact | harness/internal/measure/analyze.go:149-155 | on protocol streams, however much was logged, no connection is reset in two windows and every row's raw count is its connection count |
| EndToEnd.GapExact | harness/internal/measure/analyze.go:190-197 | the gap computed for a logged reset is the time to that worker's next successful dial if that was logged, and none otherwise |
| EndToEnd.RecoveryExactness | harness/internal/measure/analyze.go:236-246 | pool-not-recovered exactly when a connection is shown reset in a window and its worker not shown to dial again; otherwise the recovery is the longest such wait |
| EndToEnd.LastConnection | harness/internal/load/load.go:343-345 | with everything logged, a reset connection without a next dial was its worker's last |
| EndToEnd.NewConnExactness | harness/internal/measure/analyze.go:248-251 | failures counted are the logged failed dials of the short-lived workers, one for one |
| EndToEnd.FleetVerdict | harness/internal/measure/analyze.go:22-265 | the verdict, the reason and every reported reason are functions of what the log shows the workers did, for any number of workers, every interleaving and every part of it logged |
| EndToEnd.FleetTable | harness/internal/measure/analyze.go:169-225 | the row of a window is recovered exactly when some worker's connection was hit there and every such worker is seen to dial again, and its recovery is the longest of their waits |
| RollWatcher.Watcher.constructor | harness/internal/live/rollwatch.go:30-38 | a new watcher stands for the empty history |
| RollWatcher.Watcher.OnPod | harness/internal/live/rollwatch.go:65-102 | after any notification the drain map holds the minimum over pods of the first deletion time seen, the ready map the maximum ready time, per node |
| RollWatcher.Watcher.Windows | harness/internal/live/rollwatch.go:122-142 | exactly one window of length grace per drained node, with that node's minimum and the latest ready time of any pod shown Ready there |
| RollWatcher.PodReadyMeans | harness/internal/live/rollwatch.go:104-111 | a pod is ready exactly when its first condition of type Ready holds, wherever in the list that is |
| RollWatcher.ReadyConditionTimeMeans | harness/internal/live/rollwatch.go:113-120 | the time is that of the first condition of type Ready that holds, and zero without one |
| RollWatcher.OtherConditions | harness/internal/live/rollwatch.go:104-120 | conditions of other types change neither, wherever they are inserted |
| RollWatcher.NoticeMeans | harness/internal/live/rollwatch.go:65-102 | a pod, or a tombstone holding one, drains its node exactly with a node and a deletion time, and readies it exactly with a node, no deletion time and a Ready condition that holds, at that condition's time or else now |
| RollWatcher.OtherNoticeMeans | harness/internal/live/rollwatch.go:66-75 | any other object says nothing |
| RollWatcher.SnapshotMeans | harness/internal/live/rollwatch.go:122-142 | one window per drained node, from the earliest first-shown drain for the grace, ready at the latest ready time shown, if any |
| RollWatcher.ReplacementReady | harness/internal/live/rollwatch.go:92-101 | a window's ready marker stands for a replacement if and only if no drained pod was shown Ready on its node without a replacement shown Ready too |
| RollWatcher.ReplacementTime | harness/internal/live/rollwatch.go:92-101 | its time is the replacements' latest if and only if no drained pod was Ready later than all of them |
| RollWatcher.HalfOpenMeans | harness/internal/measure/analyze.go:62-69 | over watcher windows half-open is earned if and only if some drained node never showed any Ready pod |
| RollWatcher.HalfOpenPromise | harness/internal/measure/analyze.go:62-69 | it is earned exactly by rolls with an unreplaced node if and only if an unreplaced node implies one that never showed any Ready pod |
| RollWatcher.OldPodPasses | harness/internal/live/rollwatch.go:92-101 | for every pod, node and times: Ready once, then terminating, gives a window with the old pod's ready time and a PASS without any replacement |
| RollWatcher.SnapshotOrderIrrelevant | harness/internal/live/rollwatch.go:125-142 | two listings of one history give the same result on any events except for the table and the anomaly list, and the same anomalies apart from the node an overlap is reported under |
| RollWatcher.RedeliveryIrrelevant | harness/internal/live/rollwatch.go:65-102 | histories that deliver the same notifications in any order and number stand for the same windows, if no deletion time moves and ready times are known |
| RollWatcher.EarliestShown | harness/internal/live/rollwatch.go:82-90 | the recorded drain of a node is the earliest deletion time ever shown on it if and only if no pod already seen is shown again with a time before all those first shown |
| RollWatcher.DeliveryOrder | harness/internal/live/rollwatch.go:65-102 | for pods that keep their node and known ready times: every history with the same notifications stands for the same windows if and only if on each drained node some pod shows the earliest time and no other |
| RollWatcher.MovedDeletionMatters | harness/internal/live/rollwatch.go:82-90 | two notifications of one pod with different deletion times drain at whichever came first |
| LoadReadiness.SplitWorkers | harness/internal/load/load.go:144-166 | both parts are non-negative and add up to n, and the long part is the nearest integer to n times the fraction, halves rounded up; a negative fraction gives none, one above 1 all |
| LoadReadiness.ReadinessGate.constructor | harness/internal/probeconn/probeconn.go:140-143 | a new gate has not been signalled and does not listen |
| LoadReadiness.ReadinessGate.SignalReady | harness/internal/probeconn/probeconn.go:145-167 | the first signal decides whether the gate listens, later ones change nothing |
| LoadReadiness.StepKeepsInvariant | harness/internal/load/load.go:195-208 | every step of every worker machine, dial, break, Hold cycle, decrement or signal, keeps the counter honest, the signal single and each worker on its program's run |
| LoadReadiness.HonestReadiness | harness/internal/load/load.go:195-208 | in every interleaving of held-connection machines each worker calls back as often as its program does, the gate is signalled at most once, only after all long workers dialled and never when one gave up in its ramp, at once when there are none, and surely when all have and are out of their callbacks |
| LoadReadiness.GateOpens | harness/internal/load/load.go:195-243 | for any number of long workers some schedule connects them all with one dial each and signals the gate once |
| ChartVersion.NextChartVersion | harness/internal/live/trigger_gitbump.go:251-281 | from a.b.c, with or without a prerelease, below 2 and with a tag, a patch hop publishes a.b.(c + 1)-dev<tag> and a minor hop a.(b + 1).0-dev<tag>, unless the counter is the largest 64-bit integer; a published version reads back as the next one, stays below 2 and is strictly greater; each refusal happens exactly for its own cause, not-greater exactly when the counter is the largest 64-bit integer |
| ChartVersion.SemverTotal | harness/internal/live/trigger_gitbump.go:306-329 | semverLess is a strict total order on what versions parse to |
| ChartVersion.SpelledParses | harness/internal/live/trigger_gitbump.go:283-304 | every a.b.c with components within 64 bits, with or without a dash and any prerelease, parses to these |
| ChartVersion.ParseMeans | harness/internal/live/trigger_gitbump.go:283-304 | what parses at all: three parts between dots that read as integers, and after the first dash the prerelease |
| ChartVersion.AtoiMeans | harness/internal/live/trigger_gitbump.go:294-302 | what reads as an integer: digits behind an optional sign, within 64 bits |
| ChartVersion.SpelledLess | harness/internal/live/trigger_gitbump.go:306-329 | versions compare by their numbers, a prerelease before its release, two prereleases by their first difference |
| ChartVersion.PublishesExactly | harness/internal/live/trigger_gitbump.go:256-281 | publishes exactly for a parsable version below 2, a known hop and a run tag, unless the counter to increment is the largest 64-bit integer |
| ChartVersion.PublishedVersion | harness/internal/live/trigger_gitbump.go:256-281 | what is published reads back as the incremented components, stays below 2 and is strictly greater |
| ChartVersion.ChainIncreases | harness/internal/live/trigger_gitbump.go:251-255 | along any chain of hops versions strictly increase, so none repeats |
| Clients.AttributionsAgree | harness/internal/live/clients.go:54-62 | the analyzer finds an owner for an instant exactly when some window satisfies the client rule |
| Clients.WindowForNode | harness/internal/live/clients.go:310-317 | the first window of that node, or none exactly when there is none |
| Clients.ObserveClient | harness/internal/live/clients.go:163-206 | reset exactly when pod and window are known and a connect time is attributable; recovery from the newest such time; which note is chosen, the hold answer deciding nothing else |
| Clients.RecoveryWithinWindow | harness/internal/live/clients.go:183-201 | that recovery lies between zero and grace plus tolerance, and the analyzer's owner of the instant drains no earlier |
| Report.HasReason | harness/internal/report/report.go:309-319 | true exactly if the reason leads or occurs among the anomalies |
| Report.RowCell | harness/internal/report/report.go:193-203 | a cell says not trusted exactly for ERROR runs, not satisfying exactly for other runs of such a trigger, and otherwise FAIL exactly if one of the row's reasons is named |
| Report.WriteACChecklist | harness/internal/report/report.go:172-211 | one decided line per row, in row order, the footnote printed exactly if a heading is marked |
| Report.RowsCoverFails | harness/internal/report/report.go:160-170 | the rows speak of every FAIL-class reason and of no ERROR-class one |
| Report.RowsAgree | harness/internal/report/report.go:172-211 | for results of the analyzer, a row fails exactly when the input earns one of the row's reasons |
| Report.ChecklistAgrees | harness/internal/report/report.go:172-211 | for trusted, satisfying results of the analyzer the checklist is all PASS exactly when the verdict is |
| Report.ChecklistMeans | harness/internal/report/report.go:160-211 | the five lines by title, each failing exactly by its own criterion on the events and windows |
| Measure.ParseEvents | harness/internal/live/measure.go:243-257 | the decodable events of a log in line order |
| Measure.EventsMean | harness/internal/live/measure.go:243-257 | as many events as decodable lines, each at the position given by the decodable lines before it |
| Measure.CollectEvents | harness/internal/live/measure.go:213-241 | the events on lines written since the cutoff of every readable log, pod after pod; an unreadable log costs only its own events, a failed listing all |
| Measure.CollectedMeans | harness/internal/live/measure.go:222-241 | pod after pod: the stretch of each readable pod has the event of every line that decodes and was written since the cutoff, in line order, and an unreadable pod has none |
| Measure.RunMeasure | harness/internal/live/measure.go:66-136 | exit 3 exactly when there is no cluster or the result cannot be written; otherwise 0 exactly when the collected events and the windows earn no reason under the flagged tolerance and bound, 2 exactly when the prerequisite text is not empty, or is empty and no window was seen, or a window lacks a ready time, or a connection ended before every drain, else 1; the reasons reported and the one given are the earned ones |
| Measure.FleetRun | harness/internal/live/measure.go:66-136 | for a fleet whose logs were read: the reported reasons, the lead and the exit code that RunMeasure's contract promises are those of the workers' facts since the cutoff |
| Measure.PodsCompose | harness/internal/live/measure.go:222-241 | for any number of pods with separate connections the joint verdict is the worst of the pods' own |
| Measure.FleetLogsSeparate | harness/internal/live/measure.go:222-241 | workers of one fleet spread over pods keep their pods' logs separate |
| Measure.FleetPodsCompose | harness/internal/live/measure.go:222-241 | hence for such a fleet the joint verdict is the worst of the pods' own, whole logs or cut ones |
| Measure.CollectedIsKept | harness/internal/live/measure.go:222-241 | what is collected is what was written since the cutoff, of all that the readable logs held |
| Measure.MeasuredRun | harness/internal/live/measure.go:66-136 | for any cutoff and any readable logs: exact counts, pool-not-recovered and the longest recovery as the workers' own dials show them since the cutoff |
| Measure.MeasuredVerdict | harness/internal/live/measure.go:66-136 | for any cutoff and any readable logs the verdict, the reason and the reported reasons are those of what the workers did, as far as written since the cutoff |
| Measure.HarnessVerdict | harness/internal/live/measure.go:66-136 | the same for the probes and load workers of any set of nodes none of which is named like a worker, with nothing assumed of names |
| Measure.MeasuredCutoff | harness/internal/live/measure.go:66-136 | with watcher windows and a cutoff before the first widened drain: the table and recovery of the uncut run, and its verdict if and only if the cutoff did not remove all that the verdict rests on |

## Left out

- Floating point: `Seconds()`, the conversion of the jitter tolerance and the product in the worker split are exact here; rounding is not modelled.
- Machine limits: saturation of `Time.Sub` and wrap-around of the 64-bit connection counter; the wrap of the version counters is modelled.
- Strings are compared by character; Go compares UTF-8 bytes, which orders the ASCII names used here alike.
- `connFirst` in the analyzer is written and never read, so it has no counterpart.
- Analyzer.Analyze: the table is sorted by a function standing for the library's stable sort, whose own algorithm is not modelled.
- HeldConn.HoldAndTrickle: a tick, a write and a read form one observation, and a dial and the event it emits bear one instant; the socket, the ticker and the deadline are part of the script. An endless loop is read as its behaviour over every finite script.
- Measure.CollectEvents: JSON decoding, the limit on line length and the choice of container are left out; the API's cutoff is taken at its full resolution.
- Measure.RunMeasure: the trigger, the waiting and the side-car file are left out; connecting and writing either succeed or fail.
- Measure.MeasuredVerdict: says what the readable logs show; workers of unreadable pods are not part of its fleet.
- LoadReadiness.HonestReadiness: the decrement and the signal are each one atomic step, and a worker inside its callback observes nothing.
- Clients.ObserveClient: the wording of the notes, how co-location is found and the queries that yield connect times are left out.
- Report.WriteACChecklist: the footnote's text, the wording of cells and the rest of the Markdown are left out.
- ChartVersion.NextChartVersion: refusals carry a cause instead of a message.
- `bumpChart`, `bumpDepVersion`, `bumpTargetRevision`: what they do rests on regular-expression matching over raw text.
- The git-bump and rollout-restart triggers, restoring self-heal, and the `scan` package: API calls and text matching.
- `ValidateHold`, the token bucket and the app-a diagnostics of the load generator: they never reach the verdict.
- Demo applications, scripts, YAML and Dockerfiles.
