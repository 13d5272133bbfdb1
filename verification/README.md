# Verification of the proxy's core logic

Dafny models of the parts of the proxy where a wrong step costs most: the module gate that keeps the
import graph acyclic, the affinity table that routes a conversation back to its node, the traffic log
and its body store, the exact money of a request, and the readers of streamed usage and tool calls.
Each part is modelled with the branches, limits and error cases of its source, and proved to keep
what the rest of the proxy relies on.

| files | part |
|---|---|
| `ModuleGraph`, `ModuleSearch`, `ModuleComponents`, `ModuleCycles` | runtime import graph: closure, shortest chain, strongly connected components, cycle report |
| `AffinityModel`, `AffinityExpiry`, `AffinityGuarantees`, `AffinityRuns`, `AffinityCaps`, `AffinityHits`, `AffinityRouting`, `AffinityLaziness`, `LoadAffinity` | the affinity table: its operations as functions on values, what they guarantee in every table a run reaches, and the class that updates its maps in place |
| `BodyChunks`, `BodyStorage`, `BodyDigest` | bodies as reference-counted chunks, their migration, and the digest that compares both forms |
| `LogTables`, `LogMatching`, `LogSafety`, `LogRuns`, `LogOrder`, `LogContinuation`, `LogRows`, `TrafficLog` | the log's tables and statements, the task matcher, one commit, and whole runs |
| `Whitespace`, `UsageEvents`, `UsageStreams`, `UsageAccumulator` | billing usage of a stream of server-sent events |
| `Timestamps`, `RowSorting`, `MergedPaging`, `GroupPages` | the pages of the groups of several log roots, and the walk over them |
| `Decimals`, `Money`, `ModelCatalog`, `RequestPricing`, `PricingAggregate` | decimal prices, costs, the pricing of a request over its life, and the totals of a task |
| `CallPairing` | tool calls and their results in a timeline |

Check everything with `dafny verify dfyconfig.toml`.

Where the class or loop of the source changes state, the model has a class or a method with a loop,
proved equal to a function on values; the lemmas are about that function. A database is one field
that a commit replaces as a whole, so a failed statement leaves it as it was.

Some results hold under a condition. It is stated exactly, over all inputs.

- A page of several roots (src/maintenance/log-query-service.ts:433-494) is the page of all their
  groups exactly when each group up to its end is among the rows its root was asked for
  (`MergedPaging.MergeRightWhen`). A root orders by the text of `last_seen_at`
  (src/persistence/task-store.ts:479), the merge by the instant, and the text carries the UTC offset
  (src/shared/time.ts:15-20). So it is right for every listing exactly up to row 500 and under one UTC
  offset (`MergedPaging.MergeRightExactly`, `MergedPaging.AgreeExactly`): in the night the clock is put
  back any page of several roots can be wrong.
- Following `next_offset` from 0 over several roots ends exactly when no root has more than 500 rows
  (`GroupPages.EndsExactly`).
- The digests that the compaction script compares (scripts/compact_traffic_database.ts:99-183) agree
  exactly when no body is the empty string (`BodyDigest.MigrationKeepsDigest`).
- Storing an event (src/logging/traffic-log-service.ts:83-158) keeps the log sound exactly when a
  body-pending event finds its record absent or still pending, which holds throughout when each
  request's body-pending events come first (`LogRuns.SaveKeeps`, `LogOrder.OrderedRunSound`).
- A sweep of the affinity table (src/proxy/load-affinity.ts:365-372) may come before or after a call
  exactly when the call does not bring an expired binding back (`AffinityLaziness.CommutesExactly`).
- An upsert of a price from another context (src/persistence/record-store.ts:297-306) keeps the row
  consistent exactly when the price is that of the stored snapshot (`RequestPricing.MergedExactly`).
- `numberToDecimalString`, described at src/pricing/model-catalog.ts:101 as converting to a decimal
  literal, keeps the value of a number printed with an exponent exactly when its mantissa has no
  fraction (`ModelCatalog.ValueKeptExactly`): `1e-7` keeps it and `1.5e-7` does not.

Assumptions: hashes are injective and `inflate` undoes `deflate`; a decoder is a machine that takes
one byte at a time and whose end adds no newline; JSON and date parsing, usage normalization and the
comparison of request fingerprints are functions; new task ids are new and not blank; a listing of
recent tasks holds tasks that are not pending; the years of the local clock have four digits.

The usage reader departs from section 9.2.6 of the HTML standard, and the model follows the code: a
lone carriage return ends no line, all spaces before the data are dropped, and an event that the end
of the stream cuts off is still read.

## Model

| member | source | states |
|---|---|---|
| `ModuleGraph.BuildAdjacency` | scripts/module-edges.ts:271-287 | For any edge list with repeats and unknown sources, every module lists each of its targets once, in order; the two edge kinds are never mixed |
| `ModuleGraph.AdjacencyFacts` | scripts/module-edges.ts:271-287 | A module is a neighbour exactly when some edge says so; lists are ascending and without repeats |
| `ModuleSearch.RuntimeClosure` | scripts/module-edges.ts:289-305 | Exactly the modules reachable over runtime edges, the start left out, ascending, each once; it ends although the queue may hold a module many times |
| `ModuleSearch.FindRuntimeChain` | scripts/module-edges.ts:463-486 | A shortest edge path between the two ends; empty exactly when there is none or both ends are one module |
| `ModuleComponents.Tarjan.StrongConnect` | scripts/module-edges.ts:316-352 | The depth-first invariant: only unindexed modules are entered, the stack below the call is untouched, and the low link returned is the bound its caller needs; it ends because each call indexes a new module |
| `ModuleComponents.Tarjan.Close` | scripts/module-edges.ts:337-351 | When the low link is the module's own index, what is popped is one whole class of mutually reachable modules |
| `ModuleComponents.RootComponent` | scripts/module-edges.ts:337-351 | The stack from a root on is exactly the root's strongly connected component |
| `ModuleComponents.StronglyConnectedComponents` | scripts/module-edges.ts:307-360 | A partition: every module and every imported path is in exactly one component, and each component is a whole class of mutual reachability |
| `ModuleComponents.SharedComponent` | scripts/module-edges.ts:307-360 | Two modules share a component exactly when each reaches the other |
| `ModuleCycles.CycleSearch.Extend` | scripts/module-edges.ts:378-398 | From a path, exactly the cycles that go on from it through members not before the start are collected, none twice, until the report is full; path and on-path set are put back |
| `ModuleCycles.CyclesWithinComponent` | scripts/module-edges.ts:367-405 | Only elementary cycles that begin at their smallest module, without repeats, and at most 64; all of them while fewer than 64 were collected |
| `ModuleCycles.Canonical` | scripts/module-edges.ts:367-405 | Every elementary cycle of the members has a rotation that begins at its smallest module |
| `ModuleCycles.ExactlyOnce` | scripts/module-edges.ts:367-405 | Below the limit every elementary cycle of the component, however written, is listed, and at one place only |
| `ModuleCycles.RepresentativeCycle` | scripts/module-edges.ts:407-430 | A shortest cycle through the first module; the [start, start] fallback is returned exactly when no cycle passes through it |
| `ModuleCycles.ComponentCycle` | scripts/module-edges.ts:407-430 | The fallback is never reached for a component of two modules or more |
| `ModuleCycles.FindRuntimeCycles` | scripts/module-edges.ts:433-450 | Component by component: nothing for a lone module without a self loop, one shortest cycle above twelve modules, the enumeration otherwise, at most 64 of each; empty exactly when the graph is acyclic, and every chain a closed walk |
| `ModuleCycles.EmptyReport` | scripts/module-edges.ts:433-450 | The report is empty exactly when the runtime graph has no closed walk |
| `ModuleCycles.ReportedClosed` | scripts/module-edges.ts:433-450 | Every reported chain is a closed walk of real edges inside its component |
| `ModuleCycles.ReportComplete` | scripts/module-edges.ts:433-450 | In the whole report an elementary cycle of a small component stands exactly once |
| `LoadAffinity.LoadAffinityTable.Lookup` | src/proxy/load-affinity.ts:167-219 | Exact keys first, then the bucket: the hit and the changed table are those of the value model, whose indexes agree |
| `LoadAffinity.LoadAffinityTable.LookupExact` | src/proxy/load-affinity.ts:175-193 | Keys in order; an unusable binding loses its key, and is removed when it expired |
| `LoadAffinity.LoadAffinityTable.LookupBucket` | src/proxy/load-affinity.ts:195-219 | At most the scan cap of the bucket, in the order of a snapshot taken before: the hit and the changed table |
| `AffinityHits.ExactHitsFirst` | src/proxy/load-affinity.ts:175-193 | The exact hit is the first key of the request that points at a usable binding in the table before the lookup; a miss means there is none |
| `AffinityRouting.ExactServes` | src/proxy/load-affinity.ts:420-447 | A binding found by a key serves the request: allowed target, seen within the TTL, same kind, model and boundary, and no other endpoint; on a miss none does |
| `AffinityRouting.MatchesGoesOn` | src/proxy/load-affinity.ts:195-219 | A binding found in the bucket serves the request and its users are the first of the request's |
| `AffinityRouting.LookupSees` | src/proxy/load-affinity.ts:449-452 | A hit sees the binding once more at this time and changes nothing else of it but dropped keys |
| `AffinityRouting.SharedBucket` | src/proxy/load-affinity.ts:195-219 | Requests share a bucket exactly when kind, model and boundary without user are the same |
| `AffinityHits.ByRecencyDescends` | src/proxy/load-affinity.ts:195-219 | The scan order holds all members, most recently seen first |
| `AffinityHits.BucketHitsFirst` | src/proxy/load-affinity.ts:195-219 | The hit is the first of the scanned members that is usable and whose users the request continues; a miss means there is none |
| `LoadAffinity.LoadAffinityTable.Bind` | src/proxy/load-affinity.ts:227-264 | Find or create, rebind if allowed, register keys and dependencies, enforce both caps: the whole new table; the returned binding, when kept, is on the given target, or where it was if no rebind was allowed |
| `AffinityRouting.BindPoints` | src/proxy/load-affinity.ts:227-264 | On a hit the returned binding is the one hit, seen now, pointed at the target if a rebind is allowed and left where it was otherwise, with the request's keys and dependency; on a miss a new one on the target with revision zero and the evidence of the request |
| `LoadAffinity.LoadAffinityTable.Rebind` | src/proxy/load-affinity.ts:273-285 | Points a held binding at the target, seen and bound now; a real change of target counts one revision; a binding the table gave up on changes nothing |
| `AffinityRouting.RebindPoints` | src/proxy/load-affinity.ts:273-285 | After a rebind the held binding is on the target it was given, and only its target, revision and times may differ |
| `LoadAffinity.LoadAffinityTable.NoteRequestDependencies` | src/proxy/load-affinity.ts:295-303 | Adds the one response key the request named, if any; nothing for a stale binding |
| `AffinityRouting.NoteAdds` | src/proxy/load-affinity.ts:295-303 | The dependencies gain exactly the response that the request names |
| `LoadAffinity.LoadAffinityTable.AttachResponseIds` | src/proxy/load-affinity.ts:314-322 | Registers a key for every non-empty response id; nothing for a stale binding |
| `AffinityRouting.AttachIndexes` | src/proxy/load-affinity.ts:314-322 | Exactly the keys response:<id> of the non-empty ids point at the binding afterwards, taken from whatever had them |
| `AffinityRouting.AttachedFound` | src/proxy/load-affinity.ts:167-193 | Round trip: a request that first names an attached response hits that binding by its key, when the binding serves it |
| `LoadAffinity.LoadAffinityTable.Remove` | src/proxy/load-affinity.ts:325-342 | Drops the binding, the keys that still point at it, and its bucket when it was the last member; a binding that is gone already changes nothing |
| `LoadAffinity.LoadAffinityTable.PruneTargets` | src/proxy/load-affinity.ts:345-353 | Prunes the table in place and returns how many bindings went |
| `AffinityExpiry.PruneIsKeep` | src/proxy/load-affinity.ts:345-353 | Exactly the bindings on allowed targets stay, with their keys and bucket places |
| `LoadAffinity.LoadAffinityTable.Clear` | src/proxy/load-affinity.ts:356-362 | Removes every binding with its index entries |
| `LoadAffinity.LoadAffinityTable.SweepExpired` | src/proxy/load-affinity.ts:365-372 | Removes exactly the expired bindings |
| `LoadAffinity.LoadAffinityTable.EnforceBucketCap` | src/proxy/load-affinity.ts:469-487 | Evicts first least recently seen members until the bucket fits |
| `LoadAffinity.LoadAffinityTable.EnforceGroupCap` | src/proxy/load-affinity.ts:489-502 | Evicts first least recently seen bindings until the table fits |
| `AffinityRuns.StepInv` | src/proxy/load-affinity.ts:133-503 | Every call keeps the indexes in agreement: keys point at live bindings that list them, each binding is once in its own bucket, no bucket is empty |
| `AffinityModel.RegisterInv` | src/proxy/load-affinity.ts:454-462 | Taking a key over from another binding keeps the indexes in agreement |
| `AffinityRuns.StolenKeySurvives` | src/proxy/load-affinity.ts:325-342 | A key taken over by another binding survives the removal of the former owner |
| `AffinityRuns.StaleForever` | src/proxy/load-affinity.ts:273-322 | After a binding was given up, no rebind, note or attach with it changes the table, however long the run goes on |
| `AffinityExpiry.LazyLookup` | src/proxy/load-affinity.ts:167-219 | For one time and a TTL that is not negative, a lookup hits the same whether or not a sweep came first, and the tables are equal after a sweep |
| `AffinityExpiry.SortSplit` | src/proxy/load-affinity.ts:195-219 | By recency, expired bindings always come after the live ones, whose order they do not disturb |
| `AffinityExpiry.SweepIsKeep` | src/proxy/load-affinity.ts:365-372 | A sweep leaves exactly the live bindings, with their keys and bucket places |
| `AffinityLaziness.CommutesExactly` | src/proxy/load-affinity.ts:133-503 | For every table and every call, sweeping before the call and sweeping after it give one table exactly when the call neither rebinds an expired binding nor gives it a response key of a live one |
| `AffinityLaziness.SweepsUnseen` | src/proxy/load-affinity.ts:365-372 | Sweeps put anywhere into a run whose times never go back change no later hit and no binding a bind returns, when no call of that kind is in it |
| `AffinityLaziness.RevivalSeen` | src/proxy/load-affinity.ts:273-285 | Without that condition they can: after a rebind of an expired binding the request hits it, and misses when a sweep came before the rebind |
| `AffinityCaps.BindKeeps` | src/proxy/load-affinity.ts:227-264 | In every table that a run with a clock that never went back reaches, with caps of at least one and a TTL that is not negative: the bound binding is there, and an immediate lookup finds it by an exact key if the request has one |
| `AffinityCaps.CapsAlwaysHold` | src/proxy/load-affinity.ts:469-502 | Both caps hold after every call of every run, whatever the clock does |
| `AffinityCaps.SeenAlready` | src/proxy/load-affinity.ts:449-452 | In a run whose times never go back no binding was seen later than the last call |
| `AffinityCaps.BindEvictsOldest` | src/proxy/load-affinity.ts:469-502 | For every table, clock and cap: what a bind evicts was seen no later than anything it keeps, or no later than anything it keeps of the new binding's bucket and was of that bucket |
| `AffinityGuarantees.LookupQuiet` | src/proxy/load-affinity.ts:167-219 | A lookup re-routes nothing and creates nothing |
| `AffinityRuns.StepRouted` | src/proxy/load-affinity.ts:273-322 | A step routes at most the binding it is about: its revision moves by one exactly when its target changes, and its dependencies grow only by a key the request named |
| `AffinityRuns.RevisionCountsMoves` | src/proxy/load-affinity.ts:273-303 | Over any run the revision is the number of target changes, and dependencies are keys named by requests about this binding |
| `AffinityRuns.NeverReused` | src/proxy/load-affinity.ts:227-264 | An id that was given up is never seen again |
| `AffinityRuns.IncarnationNeverReused` | src/proxy/load-affinity.ts:57-76 | An incarnation that is no longer in the table is never seen again |
| `AffinityRuns.IdentityFixed` | src/proxy/load-affinity.ts:57-132 | Incarnation, bucket and evidence of a binding never change |
| `BodyStorage.BodyStore.ReplaceRecordBody` | src/persistence/body-storage.ts:18-61 | Afterwards exactly this body is the text, or gone for null and empty text, and every other body is what it was; fails exactly for a body of a record that does not exist, and then changes nothing |
| `BodyStorage.BodyStore.LoadRecordBody` | src/persistence/body-storage.ts:63-91 | The chunks of a body inflated and joined, or null when there are none; fails exactly when one has an unknown codec or a wrong length, which no sound store holds |
| `BodyStorage.BodyStore.StoreChunk` | src/persistence/body-storage.ts:44-58 | A chunk already stored is counted once more, a new one inserted; fails exactly when the record is missing or what is stored under the hash is another chunk, which no sound store holds |
| `BodyStorage.BodyStore.DeleteReference` | src/persistence/schema-v3.ts:26-34 | The trigger: the last reference takes the chunk along, any other is counted down; counts stay exact and positive |
| `BodyStorage.BodyStore.DeleteRecord` | src/persistence/schema-v3.ts:18-34 | Deleting a record deletes its row and bodies, and no other body |
| `BodyStorage.BodyStore.MigrateLegacyRecordBodies` | src/persistence/body-storage.ts:93-119 | Every non-empty text body of every record is stored, nothing else, and the text columns are emptied |
| `BodyChunks.JoinedCut` | src/persistence/body-storage.ts:41-44 | Cutting into chunks and joining gives the body back |
| `BodyChunks.ReleasedCounted` | src/persistence/schema-v3.ts:26-34 | One reference less keeps every count equal to the number of references, and positive |
| `BodyChunks.RetainedCounted` | src/persistence/body-storage.ts:47-57 | One reference more keeps every count equal to the number of references |
| `BodyDigest.FramesApart` | scripts/compact_traffic_database.ts:185-211 | A framed value can be read back whatever follows it |
| `BodyDigest.StreamInjective` | scripts/compact_traffic_database.ts:99-211 | Two streams are equal exactly when ids and bodies are |
| `BodyDigest.MigrationKeepsDigest` | scripts/compact_traffic_database.ts:99-183 | The stream fed after the migration equals the one before exactly when no body is the empty string |
| `BodyDigest.BodyDigestInput` | scripts/compact_traffic_database.ts:99-130 | From schema version 3 on the digest is fed the chunked bodies, before it the text columns, with null for a missing column of original requests |
| `BodyDigest.TextBodyDigestInput` | scripts/compact_traffic_database.ts:101-127 | Feeds each id and its three text columns, framed, in the order of the listing |
| `BodyDigest.ChunkedBodyDigestInput` | scripts/compact_traffic_database.ts:132-183 | Never fails on a sound store, and feeds the bodies the chunks stand for |
| `BodyDigest.DigestParts` | scripts/compact_traffic_database.ts:185-198 | Feeding parts feeds what the joined value would |
| `LogMatching.LatestTimestamp` | src/logging/task-matcher.ts:402-422 | The candidate loop computes the latest text |
| `LogMatching.LatestIsLast` | src/logging/task-matcher.ts:402-422 | The latest text has a time at least that of every candidate that has one, and is one of them |
| `LogMatching.LatestChosen` | src/logging/task-matcher.ts:402-422 | The kept text is the first of those with the latest time; when none has a time it is the last |
| `LogMatching.BestHeuristicTask` | src/logging/task-matcher.ts:218-253 | The best-so-far loop computes the best candidate |
| `LogMatching.BestIsClosest` | src/logging/task-matcher.ts:218-253 | The best candidate is in the listing and closest in time; there is none exactly when no task qualifies |
| `LogContinuation.ContinuesExactly` | src/logging/task-matcher.ts:134-253 | The task to continue, from rows and links alone: that of the response the request answers, else of the first context key that leads to a task that agrees, else the closest recent task within a day, the first of those as close |
| `LogContinuation.JoinsExactly` | src/logging/task-matcher.ts:84-131 | A finished request of a settled record stays; any other joins the task that the log names, else its own pending one, else a new one; its pending task is superseded exactly when the log names another |
| `LogContinuation.LinksStored` | src/persistence/repository.ts:167-181 | A stored request links exactly the response ids and context keys it brought, but blank ones, to its task; every other link stays |
| `LogContinuation.AnswerJoins` | src/logging/task-matcher.ts:153-169 | Round trip: a request that answers a response stored with an earlier one, and agrees with that task, joins it |
| `LogContinuation.ContextJoins` | src/logging/task-matcher.ts:171-187 | Round trip: so does one whose first context key was stored, when it answers no stored response |
| `LogRows.FinishedRow` | src/logging/task-matcher.ts:335-370 | Every field that a finished request leaves in its task: what it is, model, times, count, and how sure the match is |
| `LogRows.PendingRow` | src/logging/task-matcher.ts:278-293 | A body-pending request leaves its own pending task as it was, or makes a new one in flight with one record |
| `LogRows.RecordWritten` | src/logging/task-matcher.ts:269-276 | The record has its text and its task; it keeps its sequence or takes the next one; no other record changes |
| `TrafficLog.TaskMatcher.Assign` | src/logging/task-matcher.ts:70-132 | Task, sequence, links and superseded task of one event, from one state of the log |
| `TrafficLog.TaskMatcher.Updated` | src/logging/task-matcher.ts:335-370 | What a finished request changes in its task, its record count included |
| `TrafficLog.TrafficRepository.WriteTraffic` | src/persistence/repository.ts:167-181 | All statements in order, or nothing at all when one of them fails |
| `TrafficLog.TrafficRepository.Remove` | src/persistence/task-store.ts:493-510 | The named tasks are gone with their records, all others and their records are unchanged, and the log stays sound |
| `TrafficLog.TrafficLogService.Store` | src/logging/traffic-log-service.ts:83-158 | No write ever fails, and the log stays sound exactly for an orderly event |
| `LogRuns.SaveKeeps` | src/logging/traffic-log-service.ts:83-158 | Storing succeeds in every sound log, and keeps it sound exactly when a body-pending event finds its record absent or still pending |
| `LogRuns.DisorderlyBreaks` | src/logging/task-matcher.ts:278-293 | A body-pending event of a settled request moves the record away and leaves its old task counting one too many |
| `LogOrder.OutOfOrderBreaks` | src/logging/task-matcher.ts:278-293 | From an empty log, a finished event and then a body-pending event of the same request are both stored and leave the log unsound |
| `LogRuns.OrderlyKeeps` | src/logging/task-matcher.ts:70-132 | Only the event's own record is written; a task goes only when it was pending with this record alone, so superseding deletes no record |
| `LogRuns.SupersededAlone` | src/logging/task-matcher.ts:97-109 | A superseded task is pending, has this one record and no links, and is not the task written |
| `LogRuns.ContinuationStands` | src/logging/task-matcher.ts:134-187 | A continued task is stored and never pending: links name settled tasks only |
| `LogRuns.SequenceFree` | src/logging/task-matcher.ts:269-276 | The sequence given to a record is free in its task, so the unique constraint never fails |
| `LogRuns.SettledStays` | src/logging/task-matcher.ts:84-109 | A record in a settled task keeps task and sequence whatever event comes next, exactly unless that is a body-pending event of its own |
| `LogOrder.SettledForLife` | src/logging/task-matcher.ts:84-109 | The same over any such execution, as long as no deletion names the task |
| `LogRuns.TimesAdvance` | src/logging/task-matcher.ts:335-370 | Whatever event is stored, a task is never seen earlier than before, and keeps when it started and was created |
| `LogOrder.OrderedRunSound` | src/persistence/repository.ts:167-181 | Over any execution from an empty log in which no body-pending event follows a finished one of its request: unique sequences, exact counts, pending tasks alone and unlinked, one map row and one document per record; and the next operation does not fail |
| `LogSafety.CommitKeeps` | src/persistence/repository.ts:167-181 | A commit of a fitting write succeeds and keeps the log sound |
| `LogSafety.CommitFails` | src/persistence/repository.ts:167-181 | For any database a commit fails exactly for a record of a missing task, a sequence or row number that is taken, or a link to a missing task |
| `LogSafety.RemoveKeeps` | src/persistence/task-store.ts:498-510 | Deletion keeps the log sound, also for a task just emptied |
| `LogSafety.RemoveExactly` | src/persistence/task-store.ts:498-510 | After a deletion exactly the tasks that no non-blank name drops are stored, each as it was, with their records, links, map rows and documents |
| `LogSafety.StoredSearch` | src/persistence/search-store.ts:157-183 | Syncing one record keeps exactly one map row and one document per record, for its current task |
| `LogSafety.FreshRowid` | src/persistence/search-store.ts:163-168 | The row number of a new map row is never one already indexed |
| `LogSafety.RemovedSearch` | src/persistence/search-store.ts:186-198 | Dropping the documents that the map rows name leaves no orphan in either table |
| `LogTables.After` | src/persistence/record-store.ts:355-361 | The next number is one above the largest in use, and one when there is none |
| `UsageAccumulator.UsageAccumulator.AddChunk` | src/pricing/usage-accumulator.ts:53-57 | Takes the bytes or fails after the end; what was lost stays lost and what ended stays ended |
| `UsageAccumulator.UsageAccumulator.ProcessLine` | src/pricing/usage-accumulator.ts:84-101 | One line keeps the fields equal to what the lines so far say |
| `UsageAccumulator.UsageAccumulator.DispatchEvent` | src/pricing/usage-accumulator.ts:103-119 | One whole event is read from what was kept of it, and nothing is kept |
| `UsageAccumulator.UsageAccumulator.HeldBytes` | src/pricing/usage-accumulator.ts:84-101 | The data lines held for the open event never exceed the limit |
| `UsageAccumulator.UnfinishedLineHeld` | src/pricing/usage-accumulator.ts:53-82 | The limit is one of events: everything decoded is held as long as no line break came, however long it is, and only then |
| `UsageAccumulator.UsageAccumulator.Finalize` | src/pricing/usage-accumulator.ts:59-73 | The result is that of one pass over the whole decoded text; a second call fails |
| `UsageAccumulator.Observe` | src/pricing/usage-accumulator.ts:45-82 | For every way of cutting a stream the result depends on the joined bytes only; a bad limit is refused |
| `UsageAccumulator.Decoder.DecodeAppend` | src/pricing/usage-accumulator.ts:53-57 | Streaming decoding does not see where a stream was cut |
| `UsageEvents.CompleteCapture` | src/pricing/usage-accumulator.ts:59-73 | A result is complete exactly when no event was too large or unreadable, one ended the stream, and its usage normalizes |
| `UsageStreams.StreamBilled` | src/pricing/usage-accumulator.ts:75-157 | Round trip: for every stream a server can write, with either line ending, comments, spaces and data of many lines, the result is that of the events written: lost data first, then a missing end, then the usage of the last event of the right kind, for messages the delta over the start field by field |
| `UsageStreams.TextBilled` | src/pricing/usage-accumulator.ts:75-157 | The same for any text and the events it holds |
| `UsageStreams.CutOffRead` | src/pricing/usage-accumulator.ts:59-66 | An event that the end of the stream cuts off is read as if a blank line had ended it |
| `UsageStreams.Utf8Counted` | src/pricing/usage-accumulator.ts:92 | The bytes counted for a character are those of its UTF-8 form, which reads back as the character |
| `Whitespace.SpacesAre` | src/pricing/usage-accumulator.ts:91 | What trimming removes is the white space and the line terminators of ECMAScript |
| `UsageEvents.FlagsExact` | src/pricing/usage-accumulator.ts:84-145 | Truncation means some event was lost, and the terminal flag that some event ended the stream, exactly |
| `UsageEvents.UsageIsLast` | src/pricing/usage-accumulator.ts:121-145 | The usage kept for each endpoint is that of the last event of the right kind, whatever stands between |
| `UsageEvents.SaidSticky` | src/pricing/usage-accumulator.ts:84-119 | More lines never take truncation or the terminal flag back |
| `RowSorting.StableSortIsStable` | src/maintenance/log-query-service.ts:454 | The order is by instant, keeps every row, and keeps the order of rows of one instant |
| `RowSorting.StableSortUnique` | src/maintenance/log-query-service.ts:454 | No other order does |
| `MergedPaging.HeadsTake` | src/maintenance/log-query-service.ts:440-455 | The first n rows of roots in merge order only need the first n rows of each |
| `MergedPaging.MergeRightWhen` | src/maintenance/log-query-service.ts:433-494 | For roots in any order with unique ids: a merged page is the slice of the stable sort of all rows exactly when it is beyond all rows, or each row up to its end stands among the rows its root was asked for |
| `MergedPaging.MergeRightExactly` | src/maintenance/log-query-service.ts:433-494 | Over all listings by text with times out of some set, the merge is right exactly when offset + limit is at most 500 and, in that set, the later instant has the later text |
| `MergedPaging.AgreeExactly` | src/shared/time.ts:7-21 | Texts that the local clock writes agree with their instants exactly under one UTC offset |
| `Timestamps.TextIsLocal` | src/shared/time.ts:7-21 | Texts are ordered by the reading of the local clock, and by the offset's text at one reading |
| `Timestamps.TextSpells` | src/shared/time.ts:7-21 | Every field stands at its place in the text as digits of its number |
| `Timestamps.InstantIs` | src/maintenance/log-query-service.ts:675-678 | The instant is that of the calendar of ECMA-262, less the offset |
| `Timestamps.Disagree` | src/shared/time.ts:7-21 | A later instant has the earlier text exactly when the local clock moved less than the offset did |
| `Timestamps.ClockPutBack` | src/shared/time.ts:7-21 | Ten past two in winter time comes after ten to three in summer time, and its text comes before |
| `MergedPaging.WholeRootsRight` | src/persistence/task-store.ts:463-465 | In whatever order roots list their rows, a page that fetches all of them is right |
| `MergedPaging.ShortRootsRight` | src/persistence/task-store.ts:463-465 | With roots in merge order, the merge is right on every page when no root has more than 500 rows |
| `GroupPages.PageRight` | src/maintenance/log-query-service.ts:207-236 | With roots in merge order a page is right for one root, up to the fetch limit, and for roots no longer than it; has_more then says whether there is more |
| `GroupPages.ListMergedGroups` | src/maintenance/log-query-service.ts:433-494 | Page fields as promised; with distinct ids every row is summarized with its own root |
| `GroupPages.ListGroups` | src/maintenance/log-query-service.ts:207-236 | The limit between 1 and 500, the offset not below zero, total, rows, summaries, next_offset and has_more for any number of roots |
| `GroupPages.EndsExactly` | src/maintenance/log-query-service.ts:485-492 | Following next_offset over several roots comes to an end exactly when no root has more than 500 rows; otherwise a page comes that is empty, says there is more, and names itself as the next |
| `GroupPages.WalkListsAll` | src/maintenance/log-query-service.ts:485-492 | With several roots in merge order that walk lists every group, each once and in order, exactly when no root has more than 500 rows |
| `GroupPages.WalkOneRoot` | src/persistence/task-store.ts:461-485 | With one root the walk lists all its groups in its own order |
| `Money.PrintThenRead` | src/pricing/money.ts:125-136 | What decimalString prints is accepted by the grammar and read back as the same number |
| `Money.ReadThenPrint` | src/pricing/money.ts:61-72 | An accepted text is printed back as itself exactly when its fraction does not end in zero |
| `Money.PrintsExactly` | src/pricing/money.ts:125-133 | Printing succeeds exactly for non-negative values and power-of-ten scales |
| `Money.EffectiveExact` | src/pricing/money.ts:75-79 | There is an effective price exactly when both factors are accepted, and it is their exact product |
| `Money.PlainPriceKept` | src/pricing/money.ts:75-79 | Without a multiplier the price keeps its value |
| `Money.CostRounded` | src/pricing/money.ts:99-122 | The cost is the exact total rounded once, half up, to nanoyuan |
| `Money.CostItemized` | src/pricing/money.ts:99-122 | Each token count is charged at its own price, and the total is the sum of the four |
| `Money.CostExactly` | src/pricing/money.ts:99-122 | There is a cost exactly for non-negative tokens, readable prices and a total below the storable limit; each failure has its own error |
| `ModelCatalog.MicrosRoundTrip` | src/pricing/model-catalog.ts:71-84 | The catalog's reader and printer undo each other, backwards exactly for canonical text |
| `ModelCatalog.ConversionRounds` | src/pricing/model-catalog.ts:90-99 | The converted price is accepted and within half a micro of the exact product |
| `ModelCatalog.ConversionExactly` | src/pricing/model-catalog.ts:90-99 | There is a converted price exactly when both texts are accepted and the product rounds to at most the limit |
| `ModelCatalog.ValueKeptExactly` | src/pricing/model-catalog.ts:102-120 | A number in exponent form keeps its value exactly when its mantissa has no fraction |
| `RequestPricing.CompleteConsistent` | src/pricing/request-pricing.ts:49-106 | A priced result carries the cost of its own usage and snapshot; any other carries none |
| `RequestPricing.FreezeFinds` | src/pricing/request-pricing.ts:17-36 | The context has the rule that the model name matches, or the reason why there is none |
| `RequestPricing.EffectiveItemized` | src/pricing/money.ts:81-96 | Each effective price reads as that configured price times the multiplier, or times one |
| `RequestPricing.CompleteOutcome` | src/pricing/request-pricing.ts:60-106 | A price is that of the observed usage; without one, the first reason that applies, and only a request without a rule keeps its usage |
| `RequestPricing.PricedAmount` | src/pricing/request-pricing.ts:60-106 | From configuration to bill: a priced request costs its tokens at the configured prices times the multiplier, rounded once to a nanoyuan |
| `RequestPricing.PricedExactly` | src/pricing/request-pricing.ts:60-106 | A frozen request is priced exactly when a readable rule matched, its usage is known and not negative, and the total is below the first that overflows |
| `RequestPricing.CompletesExactly` | src/pricing/request-pricing.ts:17-106 | Completing fails exactly for a matched rule that cannot be read, or negative tokens to charge with it |
| `RequestPricing.EffectiveReadable` | src/pricing/money.ts:81-96 | A rule has effective prices exactly when all its prices and its multiplier can be read, and then those can be read too |
| `RequestPricing.MergedExactly` | src/persistence/record-store.ts:297-306 | Whatever contexts two consistent blocks have, the upsert is consistent exactly when a price written over a stored snapshot is the one this snapshot gives |
| `RequestPricing.MergedConsistent` | src/persistence/record-store.ts:297-306 | So an upsert from the same context keeps a row's cost that of its own usage and snapshot, and a priced row priced |
| `RequestPricing.RunConsistent` | src/persistence/record-store.ts:297-306 | Over any upserts from one context and interruptions the row stays self-consistent |
| `RequestPricing.PricedStays` | src/persistence/record-store.ts:297-306 | Once priced, a row stays priced |
| `RequestPricing.LastDecides` | src/persistence/record-store.ts:297-306 | The last completion decides: a price stands in the row with its usage, anything else only over a row that was not priced; model and snapshot are those of the first write that had them |
| `RequestPricing.PendingAndInterrupt` | src/persistence/record-store.ts:297-385 | The same for a pending write; an interruption turns a pending row into an unpriced one for want of its usage and changes no other |
| `RequestPricing.PricingTable.Write` | src/persistence/record-store.ts:297-306 | Other rows stay; a priced row stays priced; the last price written stands; model and snapshot are set once; a row of one context stays consistent under a block of that context, and any other exactly when the price is that of the stored snapshot |
| `RequestPricing.PricingTable.MarkPendingPricingInterrupted` | src/persistence/record-store.ts:376-385 | Exactly the pending rows become unpriced; returns how many |
| `PricingAggregate.TaskAggregate.AddPricingRow` | src/persistence/pricing-store.ts:317-386 | Adds one row to the summary; fails exactly when its stored usage and price give no cost |
| `PricingAggregate.OrderIrrelevant` | src/persistence/pricing-store.ts:317-386 | The summary only depends on the rows as a bag |
| `PricingAggregate.Reconciles` | src/persistence/pricing-store.ts:317-386 | Groups add up to the task, reasons to the unpriced count, and all counts to the rows |
| `PricingAggregate.PricedIsRows` | src/persistence/pricing-store.ts:317-386 | The priced total field by field: number of charged rows, their stored costs, their own tokens, and these at their own prices |
| `PricingAggregate.ReasonsAreRows` | src/persistence/pricing-store.ts:317-386 | Every unpriced reason counts its own rows, and the pending ones are counted apart |
| `PricingAggregate.TimesAreRows` | src/persistence/pricing-store.ts:317-386 | The durations of finished rows add up, and start and end are the first and the last of them |
| `PricingAggregate.GroupIsItsRows` | src/persistence/pricing-store.ts:362-385 | A group is the total of exactly its own rows |
| `PricingAggregate.CostWithinBound` | src/persistence/pricing-store.ts:317-386 | The stored cost times 10^9 is within 5*10^8 per priced request of the exact products |
| `PricingAggregate.RunRowsCount` | src/pricing/request-pricing.ts:49-106 | Rows that one context's pricing wrote are self-consistent and never make the aggregation fail |
| `PricingAggregate.ReportExact` | src/persistence/pricing-store.ts:453-491 | Finishing never fails; every printed amount, of the task and of each group, reads back as the exact product; there is a cost exactly when a row was charged, and the total time runs from first start to last end |
| `CallPairing.NumberAndPair` | src/maintenance/summary-input.ts:255-285 | The loops over shared queues compute the finished timeline |
| `CallPairing.Numbering` | src/maintenance/summary-input.ts:256-260 | Events are numbered 1..n in input order |
| `CallPairing.LinksMutual` | src/maintenance/summary-input.ts:268-283 | A call names a result exactly when the result names the call |
| `CallPairing.LinkedShare` | src/maintenance/summary-input.ts:268-283 | Linked events share call id and operation, and the i-th result of an id has the i-th call |
| `CallPairing.OperationLinked` | src/maintenance/summary-input.ts:268-283 | An event is in an operation exactly when it is linked |
| `CallPairing.UnpairedExactly` | src/maintenance/summary-input.ts:268-276 | A result is unpaired exactly when the results of its id up to it outnumber all calls of its id |

## Left out

- The order in which components and cycles are listed: their sort by `localeCompare` is not modelled; each list has the same members, and a component's own modules are in the order of character codes, as in the source.
- Boundary rules, file scanning and report text of the module gate: they only read the results above.
- The clock of the affinity table is read once per operation, and its group-wide incarnation counter is local to the table.
- `LoadAffinity.LoadAffinityTable.Lookup`: does not model evidence hashing; bucket seeds, boundaries and stable JSON are compared as values.
- `LoadAffinity.AffinityBinding`: the fields of a binding are one record that is replaced; index and buckets name bindings by id, so aliasing of binding objects is not modelled.
- `snapshot`, `bindingEntries` and `bindingForId` of the affinity table: plain reads.
- Load balancing, migration and rebalancing: the callers of the affinity table.
- `BodyStorage.BodyStore.ReplaceRecordBody`: the transaction around it is the rollback of its own changes only; bodies are the bytes of their text; a lone surrogate that UTF-8 encoding replaces is not modelled.
- `BodyStorage.BodyStore.LoadRecordBody`: reads chunk 0, 1, 2, ... up to the first missing one; the stored rows have no gap.
- `BodyDigest.StreamInjective`: is about values shorter than 2^64 bytes, the length that the frame can write.
- Integrity checks, file replacement and retries of the database compaction.
- `TrafficLog.TaskMatcher.Assign`: anchors, the target column and the redaction of events are not modelled; fingerprints, boundaries and user messages are one opaque profile.
- The bodies of a logged request are stored in the same commit; they are modelled apart, in `BodyStorage`.
- `LogSafety.StoredSearch`: an indexed document holds its record, its task and the record's text; the copy of the task's own columns in it is not modelled.
- `LogOrder.OrderedRunSound`: one writer, as the write queue of a log root gives; write failures of the disk are not modelled.
- Search filters, previews, statistics by day and generated texts: reads over the same tables.
- `UsageAccumulator.UsageAccumulator.HeldBytes`: bounds the data of the open event only; an unfinished line has no bound in the source either, see `UnfinishedLineHeld`.
- `UsageAccumulator.UsageAccumulator.Finalize`: text is a sequence of code points, and the byte count of a data line is that of their UTF-8 form.
- The shape of normalized usage per protocol: a function here.
- `GroupPages.ListMergedGroups`: rows are an id, the text of a time and its instant; a text that is no date has the instant 0 there, and which of the rows of one text comes first is open; summaries are a function of root and row, and the summary of an id that two roots share is not determined.
- `PricingAggregate.TaskAggregate.AddPricingRow`: durations are real numbers, and the order in which groups are listed is not modelled.
- `RequestPricing.RunConsistent`: is about one frozen context per request, as the request pipeline has it; the matching of model patterns is a function.
- Cost text through floating point, local time formatting, HTTP fetching and caching of the catalog.
- `CallPairing.NumberAndPair`: an operation is the number of its call; how drafts are made from request items is not modelled.
