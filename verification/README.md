# DistroSense: a verified model of its stateful algorithms

DistroSense turns telemetry spans into anomalies, anomalies into incidents, and incidents into
actions. Between the message brokers and databases sit a few small stateful algorithms, and this
project models those, in the form the code gives them, and proves what they are for.

- **Clustering.** `ClusterModel` says what one call of the incident clusterer does to the list of open
  clusters; `Clusterer` is the heap version with its breadth-first search, merging in place and removal
  by identity. `ClusterLedger` proves what holds whatever order anomalies arrive in: nothing is lost
  or counted twice, the summary fields describe the members, cluster life is bounded. `ClusterComponents`
  proves that merging one anomaly at a time equals the connected components of the active graph, for
  arrivals in detection order, and exactly when a single call does so for arrivals in any order.
  `ClusterRules` states what one call does in fields and numbers alone.
- **Topology and cascades.** `Cascade` proves the depth-bounded search exact on every graph; `Topology`
  proves that the Cypher trail query answers by undirected distance; `CascadeIncidents` joins the two with
  the clusterer: a cascade becomes one incident.
- **Deduplication.** `DedupModel`, `DedupOperator`, `DedupRefinement` and `DedupHistory`: what the rotating
  Bloom filter holds and forgets, exactly when it can be observed in front of the expiring state, and a
  pace of additions at which it never can.
- **Detection.** `Deviation`, `ZScore`, `ZScoreFields`, `AnomalyIds`: how far from its window's mean a value can
  lie, what that means for the trigger's minimum and the severities, what is reported in terms of the
  raw fields, and why ids repeat only on replay.
- **Sinks.** `TopK` (insert then trim equals ranking everything), `TimescaleSink` and `WindowReplay` (crashes,
  rewinds and ambiguous commits leave the tables of a failure-free run), `RedisBloom` (exactly what a call
  answers under any interleaving of commands).
- **Publishing.** `Publisher`: conservation and order of spans over every interleaving of one event loop.
- **Response.** `Hpa` (raise, hold, put back), `AlertHygiene` (what is acted on), `RootCause` (choosing on the
  causal graph).
- **Shared.** `Walks` (reachability), `Selection` (sublists by position), `Lists`, `Options`.

Clocks, the network and every external service are parameters: a time is an argument, a failure is an
input that says which command took effect. Times are integers (milliseconds); the source divides them
by 1000 into floats. Metric values and scores are exact reals.

## Where the code and its own words differ

The model follows the code. Each point is a lemma.

- `README.md:414` says that nothing depends on how `anomaly-events` is partitioned. Arrival order does
  matter to clustering: `LateArrivalSplitsComponent` leaves one service in two open clusters.
- The 300-second idle rule (`correlation/config.py:42`, and the clusterer's description of it) never
  decides anything next to the 90-second age cap: `IdleRuleIsImplied`. A cluster aged exactly 90
  seconds neither takes anomalies nor is finalised.
- The rotating filter is described as holding, at any moment, every key of the last TTL. Two rotations
  within a TTL break that, two bursts (`BurstsForgetLiveKeys`) or a due one and a burst
  (`DueThenBurstForgets`). `FilterRefinesStateIff` says exactly when the operator's output shows it, and
  `PaceSuffices` that up to capacity + 1 additions within a TTL are safe; those two runs have one more.
- "Keep only the top `size`" holds if no recording lowers a member's score; `TrimEarlyIff` says exactly
  when one call departs from it and `LoweringLosesTheBest` gives an instance.
- A raise whose answer is lost is never put back (`LostRaiseStays`), and after a lost revert a trigger
  reports a service as raised that is not (`LostRevertReportsRaised`). The `...Iff` lemmas of `Hpa` show
  these are the only ways. An unset or zero minReplicas comes back as 1.
- On causal graphs with cycles the chosen root cause may explain nothing: `IsolatedRoot`, and
  `RootExplainsIff` for exactly when.
- A span that cannot be converted is remembered as seen, so well-formed repeats of it are dropped as
  duplicates: `FirstDecides`.
- The Redis test and the Redis write are separate round trips, so two callers can both be told "new":
  `RacingCallsBothAdmit`, and `SecondAdmittedIff` for exactly when.
- Without the unique index on `metrics`, which the sink only warns about, a retried write can insert its
  rows again: `InsertedOnceIff` says exactly when.

## Model

| member | source | states |
|---|---|---|
| ClusterComponents.ClustersAreComponents | correlation/clustering/incident_clusterer.py:67-123 | Over any run of calls with anomalies in detection order and a symmetric relation, at every later time the eligible clusters are exactly the connected components of the graph on their services, one cluster each |
| ClusterComponents.AddGivesComponentsIff | correlation/clustering/incident_clusterer.py:89-106 | For any state with connected clusters and arrivals in any order: after a call the eligible clusters are the components if and only if its search reached both of every two eligible clusters that touched before |
| ClusterComponents.ClustersStayConnected | correlation/clustering/incident_clusterer.py:67-106 | In every run, ordered or not, the services of every open or closed cluster are connected among themselves |
| ClusterComponents.RelatedEndTogether | correlation/clustering/incident_clusterer.py:77-106 | An anomaly related to a service an eligible cluster owns ends in one cluster with all that cluster's anomalies |
| ClusterComponents.LateArrivalSplitsComponent | correlation/clustering/incident_clusterer.py:91-106 | Out-of-order arrivals can leave one service in two eligible clusters, so the order premise is needed |
| ClusterLedger.NothingLostOrDoubled | correlation/clustering/incident_clusterer.py:89-123 | In every run each anomaly is held, in open and closed clusters together, exactly as often as it came in |
| ClusterLedger.ClustersDescribeMembers | correlation/clustering/incident_clusterer.py:14-30 | In every run a cluster's service set is that of its anomalies, last_updated their latest time, created_at one of their times |
| ClusterLedger.ClustersAreShortLived | correlation/clustering/incident_clusterer.py:91-95 | With arrivals at most L out of order, last_updated - created_at < 90 s + L and no member is detected more than L before created_at |
| ClusterLedger.IdleRuleIsImplied | correlation/clustering/incident_clusterer.py:116-120 | Eligibility and finalisation are decided by created_at alone |
| ClusterLedger.HeldCameIn | correlation/clustering/incident_clusterer.py:98-106 | Whatever an open cluster holds was added by some earlier call |
| ClusterRules.AddJoinsRelated | correlation/clustering/incident_clusterer.py:57-106 | In terms of the query alone: an anomaly ends in one cluster with all anomalies of each cluster that is the last within both time limits to hold its service or one the query relates to it |
| ClusterRules.AddOpensAlone | correlation/clustering/incident_clusterer.py:89-100 | If no cluster within the limits holds its service or a related one, it opens a cluster of its own and nothing else changes |
| ClusterRules.AddLeavesOthers | correlation/clustering/incident_clusterer.py:91-106 | A cluster outside the limits is left as it is |
| ClusterRules.CheckClosesExactly | correlation/clustering/incident_clusterer.py:108-123 | Right after a check every open cluster is at most 90 s old, and the clusters it closed are exactly the open ones that were older |
| Clusterer.Cluster.constructor | correlation/clustering/incident_clusterer.py:14-19 | A new cluster holds its one anomaly |
| Clusterer.Cluster.Add | correlation/clustering/incident_clusterer.py:21-24 | Adds one anomaly and keeps created_at |
| Clusterer.Cluster.Merge | correlation/clustering/incident_clusterer.py:26-30 | Takes over the other's anomalies and services, the earlier created_at and the later last_updated |
| Clusterer.IncidentClusterer.Related | correlation/clustering/incident_clusterer.py:57-62 | The answer is exactly the services the query gives and the service itself, from the cache or not |
| Clusterer.IncidentClusterer.BuildOwner | correlation/clustering/incident_clusterer.py:77 | The map gives each service the last listed cluster that holds it |
| Clusterer.IncidentClusterer.Search | correlation/clustering/incident_clusterer.py:78-85 | The search ends with exactly the services reachable from the start through owned services, whatever order neighbours are taken in |
| Clusterer.IncidentClusterer.ConnectedClusters | correlation/clustering/incident_clusterer.py:67-87 | Returns, in list order, exactly the eligible clusters that own a reachable service |
| Clusterer.IncidentClusterer.EligibleClusters | correlation/clustering/incident_clusterer.py:91-95 | Exactly the open clusters updated at most 300 s and created less than 90 s before, in list order |
| Clusterer.IncidentClusterer.AddAnomaly | correlation/clustering/incident_clusterer.py:89-106 | The heap after the call shows the list the specification function gives; and, in fields and numbers: related clusters within the limits are joined, others are left, and without any it opens its own |
| Clusterer.IncidentClusterer.MergeMatching | correlation/clustering/incident_clusterer.py:102-106 | The first matching cluster takes the anomaly and absorbs the others, which leave the list by identity |
| Clusterer.IncidentClusterer.PopFinalized | correlation/clustering/incident_clusterer.py:108-123 | Hands over exactly the clusters idle for more than 300 s or older than 90 s, in list order, and keeps the others in order |
| Clusterer.MatchingPositions | correlation/clustering/incident_clusterer.py:86-95 | Searching the eligible sublist selects the same clusters as searching the whole list with the others left out |
| Walks.ClosedContains | correlation/clustering/incident_clusterer.py:80-85 | A set closed under steps contains every walk that starts in it: why a finished search missed nothing |
| Cascade.GetAffectedServices | simulator/services/cascade_map.py:29-53 | On any graph, terminates and lists without repeats and nearest first exactly the other services at directed distance 1 to max_depth |
| Cascade.Popped | simulator/services/cascade_map.py:43-45 | Dropping a visited or too deep queue entry keeps the search state's invariants |
| Cascade.AlsoSearching | simulator/services/cascade_map.py:46-51 | Visiting a service and queueing its dependents keeps them |
| Cascade.ReachedWithin | simulator/services/cascade_map.py:42-53 | With the queue empty, every service within max_depth has been visited at a depth no greater than any path to it |
| Topology.ServiceGraph.MergeTopology | correlation/graph/neo4j_client.py:38-68 | The push adds exactly the registered services and the calls between registered services |
| Topology.RelatedIffWithinHops | correlation/graph/neo4j_client.py:70-83 | The trail query returns another service exactly if an undirected walk of at most that many calls joins the two |
| Topology.RelatedIsSymmetric | correlation/graph/neo4j_client.py:70-83 | The relation is symmetric, and with the service itself added reflexive, for any topology and hops |
| Topology.CascadeStaysRelated | simulator/services/cascade_map.py:29-53 | A service within the cascade depth of a root is related to it in the pushed topology |
| CascadeIncidents.CascadeIsOneIncident | correlation/clustering/incident_clusterer.py:57-106 | With anomalies in order, one on a root and one on a service its cascade affects end in one cluster if the second comes while the first's cluster is eligible |
| CascadeIncidents.AddCascading | correlation/clustering/incident_clusterer.py:57-106 | The same of a clusterer object whose query is the pushed topology's at two hops |
| DedupOperator.RotatingBloom.RotateIfDue | flink_jobs/operators/deduplication_filter.py:39-43 | Retires the current generation once it is a TTL old |
| DedupOperator.RotatingBloom.MaybeContains | flink_jobs/operators/deduplication_filter.py:48-50 | Answers, after a due rotation, whether either generation may hold the key |
| DedupOperator.RotatingBloom.Add | flink_jobs/operators/deduplication_filter.py:52-61 | Adds the key, retiring a full generation first |
| DedupOperator.DeduplicationFilter.ProcessElement | flink_jobs/operators/deduplication_filter.py:91-105 | Yields, writes state and tells the filter as the operator function says |
| DedupHistory.FilterRefinesStateIff | flink_jobs/operators/deduplication_filter.py:26-105 | With a clock that never goes back, across restarts and rewinds: the operator yields exactly what the operator that always reads the state yields, if and only if at no event a warm filter has forgotten a key with a live state entry, two rotations having come since its last addition and no held generation covering its bits; then the states are equal too |
| DedupHistory.FilterHoldsExactly | flink_jobs/operators/deduplication_filter.py:39-61 | In any run the two generations hold exactly the bits of the keys added since the last rotation and between the last two |
| DedupHistory.MissedIff | flink_jobs/operators/deduplication_filter.py:48-50 | A filter misses a key it was given exactly if it is forgotten in that sense |
| DedupHistory.AddForgetsIff | flink_jobs/operators/deduplication_filter.py:52-61 | One addition makes the filter forget a key it held, exactly if it retires a full generation that does not cover the key and the added key does not either |
| DedupHistory.YoungEntriesWereAdded | flink_jobs/operators/deduplication_filter.py:45-46 | A state entry younger than the filter belongs to a key the filter was told of: why a warm filter may be believed |
| DedupHistory.PaceSuffices | flink_jobs/operators/deduplication_filter.py:52-61 | With at most capacity + 1 additions in any interval shorter than a TTL it never happens |
| DedupRefinement.FilterRefinesState | flink_jobs/operators/deduplication_filter.py:26-105 | At that pace yields and states are those of the operator that always reads the state |
| DedupHistory.DeduplicatesWithinTtl | flink_jobs/operators/deduplication_filter.py:80-105 | Unless a live key is forgotten, two yields of a span id are at least a TTL apart, and a dropped event has a yield less than a TTL before |
| DedupRefinement.AddCovers | flink_jobs/operators/deduplication_filter.py:52-61 | At that pace an addition, with its due or burst rotation, forgets only keys a TTL old |
| DedupRefinement.StateIsLastYield | flink_jobs/operators/deduplication_filter.py:98-102 | A key's state entry is the time of its last yield |
| DedupHistory.BurstsForgetLiveKeys | flink_jobs/operators/deduplication_filter.py:54-61 | Capacity + 2 additions and two burst rotations: a repeat within a TTL is yielded again |
| DedupHistory.DueThenBurstForgets | flink_jobs/operators/deduplication_filter.py:39-61 | The same with a due rotation and a burst |
| Deviation.DeviationBound | flink_jobs/operators/zscore_trigger.py:61-62 | In n values, no squared deviation exceeds (n - 1) times the population variance |
| Deviation.SumSquaredBound | flink_jobs/operators/zscore_trigger.py:62 | The square of a sum is at most the count times the sum of squares |
| ZScore.FiresIff | flink_jobs/operators/zscore_trigger.py:54-74 | The trigger fires exactly if the window is large enough, its latest event is new in the slide and some metric exceeds the threshold toward its anomalous side; it reports the strongest |
| ZScoreFields.ReportsOnFields | flink_jobs/operators/zscore_trigger.py:23-74 | A window reports exactly if it has ten events, its latest falls in the last 30 s, and that one's cpu, latency or error rate is more than three deviations above its field's mean or its request rate that far below; the type and deviation reported are those of such a field |
| ZScoreFields.StdsAreTheFields | flink_jobs/operators/zscore_trigger.py:61-62 | The deviations used are each field's own population standard deviation |
| ZScoreFields.BuiltOnFields | flink_jobs/operators/zscore_trigger.py:77-97 | The built anomaly carries the severity of its deviation (3.5, 5.5, 7.5, 9), its event's time, trace and span, and the id text |
| ZScoreFields.JudgedInOneWindow | flink_jobs/jobs/sliding_window_job.py:25-28 | Every moment lies in the last 30 s of exactly one window |
| ZScoreFields.DigitsValue | flink_jobs/operators/zscore_trigger.py:84-85 | The digits in an id read back as the number they stand for |
| ZScore.DetectionNeedsEvents | flink_jobs/operators/zscore_trigger.py:54-80 | A detection needs 11 events, severities 2 to 5 need 14, 32, 58 and 82, rounding to four decimals included |
| ZScore.SeverityNeedsEvents | flink_jobs/models/anomaly_event.py:36-42 | The same for any metric of any event, from the severity thresholds |
| ZScore.BoundsAreExact | flink_jobs/operators/zscore_trigger.py:54-80 | Windows of 11, 14, 32, 58 and 82 events are reported with severities 1 to 5, the last only by rounding |
| ZScore.ElevenEventsCanFire | flink_jobs/operators/zscore_trigger.py:56-67 | Eleven events suffice, however z is rounded |
| ZScore.Strongest | flink_jobs/operators/zscore_trigger.py:64 | The first of the metrics with the greatest value |
| ZScore.LatestRow | flink_jobs/operators/zscore_trigger.py:58 | The first of the events with the greatest timestamp |
| ZScore.IdsDifferAcrossWindows | flink_jobs/operators/zscore_trigger.py:84-127 | Reports of different windows or services carry different ids, if uuid5 has no collisions |
| AnomalyIds.NameInjective | flink_jobs/operators/zscore_trigger.py:84-85 | The id's name is equal only for equal service, timestamp and type, slashes in service ids included |
| TopK.HoldsTheBestRecorded | flink_jobs/sinks/redis_sink.py:22-35 | After any calls that never lower a score, failures included, the set trimmed last holds exactly the best `size` of everything recorded |
| TopK.ReplayChangesNothing | flink_jobs/sinks/redis_sink.py:22-29 | Recording any recorded entry again, evicted or not, changes nothing |
| TopK.KeepsTheGreatest | flink_jobs/sinks/redis_sink.py:22-29 | The set then holds `size` entries, or all there are, each ahead of every recorded one it does not hold: by score, and at equal score byte by byte |
| TopK.RecordedAre | flink_jobs/sinks/redis_sink.py:26 | What counts as recorded is of each member the last score that reached Redis |
| TopK.LexIsBytewise | flink_jobs/sinks/redis_sink.py:27 | The order of members is that of the first character in which they differ |
| TopK.TrimEarlyIff | flink_jobs/sinks/redis_sink.py:26-27 | Trimming on every call gives what trimming at the end would, exactly unless a held member's new score falls below the best evicted entry |
| TopK.LoweringLosesTheBest | flink_jobs/sinks/redis_sink.py:26-27 | Such a call, in which the better entry stays evicted |
| TopK.TrimKeepsBest | flink_jobs/sinks/redis_sink.py:27 | Trimming keeps a ranking and evicts only entries below all kept ones |
| TopK.ZaddRanked | flink_jobs/sinks/redis_sink.py:26 | Adding keeps one entry a member, ranked, with the new score |
| TopK.RedisTopKSink.RecordAnomaly | flink_jobs/sinks/redis_sink.py:22-35 | What the stored set becomes under each way the two commands can fail, and what the caller is told |
| TimescaleSink.TimescaleDBSink.Run | flink_jobs/sinks/timescaledb_sink.py:84-102 | Up to three attempts insert the rows as often as a commit took effect; it raises exactly if no attempt succeeds |
| TimescaleSink.TimescaleDBSink.WriteMetric | flink_jobs/sinks/timescaledb_sink.py:104-131 | With the unique index one window's rows are in once if any commit took effect; without it, once for each |
| TimescaleSink.MetricRowsAre | flink_jobs/sinks/timescaledb_sink.py:116-126 | The rows are one for each mean the window has, each under its own metric's name |
| TimescaleSink.RowsAreStored | flink_jobs/sinks/timescaledb_sink.py:110-126 | Each mean is stored under its time, service and metric name, unless a row was there before |
| TimescaleSink.TimescaleDBSink.WriteAnomaly | flink_jobs/sinks/timescaledb_sink.py:133-155 | The anomaly is in once, or not at all if no commit took effect |
| TimescaleSink.InsertedOnceIff | flink_jobs/sinks/timescaledb_sink.py:71-74 | Inserting n times is inserting once exactly if n is 1 or nothing is inserted, or there is a unique key and n is positive or every row was there |
| TimescaleSink.LandedIff | flink_jobs/sinks/timescaledb_sink.py:84-102 | Some commit takes effect exactly if some attempt succeeds or loses only its answer |
| TimescaleSink.LostAnswerDoubles | flink_jobs/sinks/timescaledb_sink.py:84-102 | A lost answer and then a success are two commits |
| TimescaleSink.InsertTwice | flink_jobs/sinks/timescaledb_sink.py:110-115 | Inserting the same rows again changes nothing |
| TimescaleSink.FinishedHoldsExactly | flink_jobs/sinks/timescaledb_sink.py:24-32 | After any crashes, rewinds and half-acknowledged writes a finished job's tables hold exactly the rows its windows produce |
| TimescaleSink.ReplaySafe | flink_jobs/operators/zscore_trigger.py:133-143 | They equal the tables of any other finished run, the failure-free one included |
| WindowReplay.WindowsAreDeterministic | flink_jobs/operators/zscore_trigger.py:77-143 | Rows built by detection and aggregation windows that have the same key are the same row, because the ids and window ends tell windows apart |
| WindowReplay.WindowsReplaySafe | flink_jobs/operators/window_aggregator.py:50-59 | So a finished job's tables hold exactly the anomalies and aggregates of its windows, whatever it went through |
| WindowReplay.SlidingRows | flink_jobs/operators/zscore_trigger.py:122-143 | A sliding window writes one row for what it reports, field by field |
| WindowReplay.TumblingRows | flink_jobs/operators/window_aggregator.py:50-59 | A tumbling window writes a row for each mean it has, at its end |
| RedisBloom.AnswerIff | ingestion/dedup/redis_bloom.py:38-59 | Whatever other commands interleave, a call answers True exactly if in the current or in the previous bitmap each position of the item had been set before the call read it |
| RedisBloom.PositionsAreDoubleHashed | ingestion/dedup/redis_bloom.py:28-33 | The i-th position is the first half of the digest plus i times the second made odd, modulo the number of bits |
| RedisBloom.SeenOnceWritten | ingestion/dedup/redis_bloom.py:38-59 | So once a call's SETBITs are done, every later call for the item in the same or next bucket answers True |
| RedisBloom.SecondAdmittedIff | ingestion/dedup/redis_bloom.py:44-59 | A second call for an item only the first sets is told False as well, exactly if it read some position before the first had set it |
| RedisBloom.WithinOneBucket | ingestion/dedup/redis_bloom.py:41-42 | A clock reading at most bucket_seconds later falls in the same or next bucket |
| RedisBloom.BitStays | ingestion/dedup/redis_bloom.py:54-58 | A set bit stays set until the end of the next bucket and the slack |
| RedisBloom.ExpiryAfterDeadline | ingestion/dedup/redis_bloom.py:57 | No bitmap is given an expiry before that |
| RedisBloom.RacingCallsBothAdmit | ingestion/dedup/redis_bloom.py:44-59 | Two callers that both read before anybody writes both answer False |
| RedisBloom.RedisBloomFilter.Ask | ingestion/dedup/redis_bloom.py:44-51 | The reads of both bitmaps among other callers' commands, and whether all bits of one were found set |
| RedisBloom.RedisBloomFilter.Record | ingestion/dedup/redis_bloom.py:54-58 | The writes and the expiry among other callers' commands |
| RedisBloom.RedisBloomFilter.SeenOrAdd | ingestion/dedup/redis_bloom.py:38-59 | One call with other callers' commands anywhere in between: exactly what the server runs, that its reads and writes are those the theorems speak of, and that its result is their answer |
| RedisBloom.CallExpiresOwn | ingestion/dedup/redis_bloom.py:57 | A call's EXPIRE keeps the rule the theorems ask of every EXPIRE |
| Publisher.NothingLostOrReordered | simulator/publisher/grpc_publisher.py:69-118 | In every interleaving the spans taken, in publish order, are the batches in swap order and then the buffer |
| Publisher.AlwaysSized | simulator/publisher/grpc_publisher.py:81-94 | At every suspension the buffer is below GRPC_BATCH_MAX and no batch is empty or larger than it |
| Publisher.DroppedAfterThree | simulator/publisher/grpc_publisher.py:95-118 | A batch is dropped exactly when three of its calls failed; one sent or in flight had fewer and is at the next |
| Publisher.TallyIsRight | simulator/publisher/grpc_publisher.py:100-112 | Sent, dropped, in flight and buffered add up to the spans taken, and the counters say the first two |
| Publisher.TakenOnce | simulator/publisher/grpc_publisher.py:73-81 | No two spans taken share a non-empty id |
| Publisher.FirstDecides | simulator/publisher/grpc_publisher.py:73-81 | Without false positives an id gets a span through exactly if the first one published with it could be converted |
| Publisher.GrpcPublisher.Publish | simulator/publisher/grpc_publisher.py:69-83 | The stretch up to the first await, duplicates and conversion errors included |
| Publisher.GrpcPublisher.StartFlush | simulator/publisher/grpc_publisher.py:90-98 | The swap: a non-empty buffer becomes a batch at its first call |
| Publisher.GrpcPublisher.OnReply | simulator/publisher/grpc_publisher.py:98-118 | Sent, retried after a pause, or dropped at the third error |
| Publisher.GrpcPublisher.OnResume | simulator/publisher/grpc_publisher.py:105-106 | After the pause the next call is made |
| Hpa.EverySitsRight | orchestrator/integrations/k8s_client.py:86-125 | Over any run with any failures, a hold stores the true original below the target, and every autoscaler sits exactly where its history of raises, reverts and lost answers says |
| Hpa.HoldsTheOriginal | orchestrator/integrations/k8s_client.py:100-108 | In plain numbers: a hold stores what minReplicas was at first, or 1 if that was unset or 0 |
| Hpa.OriginalComesBack | orchestrator/integrations/k8s_client.py:113-121 | A check that ends a hold leaves minReplicas as it was at first, or 1 if that was unset or 0 |
| Hpa.TriggerInNumbers | orchestrator/integrations/k8s_client.py:86-111 | A trigger for a service without a rollout does nothing; one for a held rollout extends the hold; another patches exactly if the number read is below the target, and holds that number exactly if the patch is acknowledged |
| Hpa.CheckInNumbers | orchestrator/integrations/k8s_client.py:113-125 | A check does nothing before a deadline; then it puts the original back unless refused, and ends the hold or retries in 60 s |
| Hpa.FreeAtOriginalIff | orchestrator/integrations/k8s_client.py:107-125 | Without a hold an autoscaler reads as at first, if and only if no raise's answer was lost |
| Hpa.FreeUnchangedIff | orchestrator/integrations/k8s_client.py:100-120 | Its field is the very value it had, if and only if besides it was never held or was set to 1 or more |
| Hpa.HeldAtTargetIff | orchestrator/integrations/k8s_client.py:93-125 | A hold's autoscaler sits at the target, if and only if no revert of that hold was lost |
| Hpa.SuccessMeansScaledIff | orchestrator/integrations/k8s_client.py:86-111 | A trigger that returns True leaves the service scaled up, if and only if it did not merely extend a hold whose revert was lost |
| Hpa.LostRaiseStays | orchestrator/integrations/k8s_client.py:107-108 | A raise that takes effect although the call raises is never put back |
| Hpa.LostRevertReportsRaised | orchestrator/integrations/k8s_client.py:93-98 | After a lost revert a trigger returns True with the service at its original size |
| Hpa.NoEarlyRevert | orchestrator/integrations/k8s_client.py:92-125 | No check touches a hold or its autoscaler sooner than revert_after past any earlier trigger after which it was held |
| Hpa.HoldEndsIff | orchestrator/integrations/k8s_client.py:113-125 | A check ends a hold and restores the original, if and only if the hold's deadline has come and the patch is acknowledged |
| Hpa.DeadlineIsLastSet | orchestrator/integrations/k8s_client.py:92-125 | That deadline is exactly revert_after past the last trigger, or 60 seconds past the last check that failed to end the hold, whichever came last |
| Hpa.OverdueIsReverted | orchestrator/main.py:131-135 | However often checks come, one past every trigger's hold and every failed revert's delay ends the hold, if its patch is acknowledged |
| Hpa.K8sClient.TriggerHpa | orchestrator/integrations/k8s_client.py:86-111 | The outcome and the new state under each way the API can answer |
| Hpa.K8sClient.RevertExpired | orchestrator/integrations/k8s_client.py:113-125 | One pass over a snapshot of the holds, the same in any order |
| AlertHygiene.CooldownIff | orchestrator/incident_filter.py:45-55 | An incident neither duplicate nor stale is held back exactly if its root cause was acted on within the cooldown at its severity or above |
| AlertHygiene.ActIff | orchestrator/incident_filter.py:30-55 | An incident is acted on exactly if its id is not among the newest max_seen recorded, it was not closed more than max_age before, and its root cause was not handled within the cooldown at its severity or above |
| AlertHygiene.StaleIff | orchestrator/incident_filter.py:41-43 | One closed longer ago is never acted on, and is called stale exactly if it is no duplicate |
| AlertHygiene.ActsEscalate | orchestrator/incident_filter.py:45-55 | Of two acts on one root cause less than a cooldown apart, the later is strictly more severe |
| AlertHygiene.AtMostSix | orchestrator/incident_filter.py:45-55 | With severities 0 to 5, at most six acts on one root cause fall within a cooldown |
| AlertHygiene.SeenIsNewest | orchestrator/incident_filter.py:34-39 | The ids remembered are exactly the newest max_seen recorded |
| AlertHygiene.DuplicateIff | orchestrator/incident_filter.py:34-36 | A check says duplicate exactly if its id is one of those |
| AlertHygiene.PassedTwice | orchestrator/incident_filter.py:34-39 | An id gets past that test twice only with max_seen other, pairwise different ids recorded in between |
| AlertHygiene.IncidentFilter.Check | orchestrator/incident_filter.py:30-55 | The verdict and the new state, tests in the code's order |
| RootCause.AcyclicRootIsASource | correlation/causality/granger_engine.py:108-116 | On non-empty acyclic edges the chosen service has no incoming edge, has an outgoing one, and the most of all sources |
| RootCause.RootExplainsIff | correlation/causality/granger_engine.py:114-116 | On any non-empty edges it has an outgoing edge exactly if some source has one or there is no source |
| RootCause.BestSourceIff | correlation/causality/granger_engine.py:114-116 | It is a source with outgoing edges, the most of all sources, exactly if some source has an outgoing edge |
| RootCause.IsolatedRoot | correlation/causality/granger_engine.py:114-116 | It may have none |
| RootCause.SourceBehind | correlation/causality/granger_engine.py:108-114 | Walking back along acyclic edges ends at a source with an outgoing edge |
| RootCause.DegreesAddUp | correlation/causality/granger_engine.py:108-112 | The in-degrees and the out-degrees each sum to the number of edges |
| RootCause.DegreesCount | correlation/causality/granger_engine.py:108-112 | The degrees count the edges from a service and to it |
| RootCause.ChosenIsFirst | correlation/causality/granger_engine.py:114-116 | Ties go to the service whose first anomaly comes first in the cluster |
| RootCause.ServicesInOrder | correlation/causality/granger_engine.py:63-67 | Services are listed in the order of their first anomalies |
| RootCause.LatestIsLatest | correlation/causality/granger_engine.py:63-67 | Each service is represented by its latest anomaly, the first of several |
| RootCause.CausalEdges | correlation/causality/granger_engine.py:79-98 | The edges are exactly the significant ordered pairs, each once |
| RootCause.CountDegrees | correlation/causality/granger_engine.py:108-112 | The two counting maps hold the degrees |
| RootCause.FindRootCause | correlation/causality/granger_engine.py:62-122 | The whole choice: exact edges; the first earliest anomaly's service if there are none; otherwise of the services that may be chosen the one that explains most, of several the one first seen in the cluster; on acyclic edges a source that explains something |

## Left out

- FilterRefinesState: its pace is sufficient, not necessary; `FilterRefinesStateIff` has the exact condition.
- ClustersAreComponents: takes detection order as a premise; without it `AddGivesComponentsIff` says exactly which calls are still right.
- DetectionNeedsEvents: exact reals, a standard deviation that is exactly the root of the variance, and any rounding to within half of the fourth decimal; floating-point error of the array library and NaN values are not modelled.
- AnswerIff: takes server time as non-decreasing, each call's reads within 60 seconds of its clock reading, and every EXPIRE after its call's clock reading; hash quality and the rate of false positives are not modelled.
- IdsDifferAcrossWindows: takes uuid5 as injective.
- TimescaleSink.TimescaleDBSink.Run: an operation's rows are inserted by one statement; whether `metrics` has its unique index is found once, not again on every reconnection.
- ReplaySafe: for tables with the unique index, and for two runs that finish; without the index `InsertedOnceIff` says when a write is doubled.
- WindowsAreDeterministic: a window of a service fires with one content, its events lie in it and its end is a multiple of the slide; uuid5 and the ISO format of window ends have no collisions; standard deviations and means are functions of the window.
- NothingLostOrReordered: task cancellation during `stop` is not modelled, nor is a publisher that was not started.
- EverySitsRight: the client is the only writer of the autoscalers and one target is used throughout; `rollback_canary` and the disabled client are easy members.
- Hpa.K8sClient.RevertExpired: the body of its loop is a method of its own.
- Clusterer.IncidentClusterer.AddAnomaly: the related-services query is a fixed function of the service; a query that raises is not modelled.
- FindRootCause: whether a series is long enough and whether one helps to predict another are inputs; fetching and aligning series and the statistical test are not modelled.
- MergeTopology: names, tiers and the placeholder edge weights set beside the merges are not modelled.
- `build_cascade_map` draws the map at random; every theorem holds for any map, of registered services where it says so.
- The keyed state of the deduplication operator hides entries a TTL after their write, at millisecond resolution, and the library filter is bits with a counter that raises when full.
- Kafka, Flink, Neo4j, Redis, Postgres, Kubernetes, Slack and the language model are present only through the effects above.
- Anomaly scores, top-k payloads and JSON, Avro and protobuf encodings beyond the fields used.
- The machine-learning service, the dashboard, the rule engine, the debouncer, metrics, logging and configuration: no property here depends on them.
