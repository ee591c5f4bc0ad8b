# Verified model of the agent-memory kernels

This project models the stateful and arithmetic kernels of the agent-memory server (Go) and of its
living_memoryv2 engine (Python), and proves what they promise. Every main result is about all inputs, all runs or all
interleavings. `dafny verify dfyconfig.toml` checks the project.

| module | what it models |
|---|---|
| `Mobius` | the address grid whose u edge flips v: neighbourhoods are the balls of a metric |
| `JobTable`, `QueueProtocol` | the Postgres job queue and its maintenance job as SQL steps, and as a lease protocol of any number of workers |
| `Knowledge`, `Facts`, `Identity`, `Mirror`, `Rebuild` | the fact ledger, what makes two facts the same, the knowledge graph that mirrors the ledger, and the indexing of the facts in another order |
| `Vault`, `VaultRuns` | remembering into all stores and rebuilding them from the log file and the ledger; runs that mix memories and facts |
| `TokenBucket` | the lazily refilled rate limiter |
| `Resp` | the RESP2 command printer and reply reader of the Redis client |
| `Receipts` | the hash-chained audit log |
| `Chunking`, `Markdown` | the heading stack and the bounded chunker of the Markdown splitter |
| `Graph` | the bounded breadth-first relation walk |
| `Engram` | the hot-query cache of hash buckets |
| `Schema`, `Store` | the memory envelope; the canonical log as a text file, its content-addressed blobs and the integrity check |
| `Compression` | fitting a context pack to its token budget |
| `Sif`, `SifSections` | the SIF v1 text frame and the SIF v2 section shrinking |
| `Wrappers`, `Ordering`, `Text` | shared definitions: options and results, sorting, Python string functions |

A source class whose methods change its fields is a Dafny class whose methods are proved against functions of the old
state; the theorems are about those functions and about runs of them. A source loop is a `while` or `for` loop with
invariants. What those functions compute is itself fixed by laws that do not mention them: in coordinates, columns,
fields, characters or calls. Three of them leave no choice at all: `Mobius.WrapIsTheFolding`,
`TokenBucket.CallIsAdmittedIff` and `SifSections.FrontFirstIsCut`.

SHA-256, JSON and UTF-8 encoding, lower-casing, n-gram hashing and RFC 3339 formatting are function parameters.
Where a theorem needs digests to differ, its hypothesis names the set of values in use and says that no two of *them*
collide (`CollisionFree`); `Receipts.Commitment` needs no such hypothesis and hands over a collision instead. What JSON
promises about a printed envelope is stated for each logged envelope (`Store.Printed`). Clocks are arguments.
Floating-point numbers are reals.

## What turned out false, and when it holds

- A worker slower than its five-minute lease can reopen a finished job (`QueueProtocol.SlowWorkerReopensDone`).
  `SafeMarkIff` says exactly which marks are harmless; with none overtaken, exclusion and finality hold.
- After a crash on the last attempt a row is never claimable again and never becomes failed
  (`QueueProtocol.ExhaustedRowIsStranded`, reached by `CrashesStrandARow`). An unfinished row can still finish exactly
  when it has attempts to come or a worker holds it (`CanFinishIff`).
- A fact that lists itself leaves the ledger without an active end; that is the only way
  (`Facts.AddKeepsLedgerIff`). The mirror, too, is lost exactly when a fact not yet stored lists itself
  (`Mirror.MirrorStepIff`).
- The log file is split at three line ends that JSON leaves raw (next line, line separator, paragraph separator). A
  remembered text that holds one is logged as several lines: the integrity check reports an invalid line and a rebuild
  breaks off there, with its tables already cleared (`Vault.RawLineEndStopsTheRebuild`). Without them the log reads back
  (`Store.LogReadsBackIff`).
- A memory with a refused relation is stored and logged before the exception. The rebuild stops there; later memories and
  all facts are not restored (`Vault.RefusalStopsTheRebuild`). Without a log file no fact is restored either
  (`NoLogLosesFacts`). `CompletesIff` says exactly when a replay completes, `VaultRuns.EveryRunIsRebuiltIff` for which
  runs.
- A completed rebuild indexes the facts by confidence and creation time, not in the order they were added. It restores
  every status, however ties are listed, exactly when each active fact is strictly behind all other facts that list it
  (`Rebuild.ListingRestoresIff`). A superseded fact that is added again later, with its superseder's confidence, breaks
  this in every listing; with less confidence than its superseder it does not (`ReAddedFactIsRestoredIff`). All orders
  whatever restore the statuses exactly when no active fact is listed by another (`EveryOrderRestoresIff`).
- The link from a superseded fact to its superseder is restored exactly when the superseder lists it and is strictly
  behind it and behind all its other listers (`Rebuild.LinkListingIff`). In the ordinary case, a superseder with the
  higher confidence, every rebuild loses it (`ConfidentSuperseder`).
- The receipt id is not hashed, and a '|' inside a tenant, action or subject makes the hashed text ambiguous
  (`Receipts.UniqueReadingIff`, `PipeInTenantIsAmbiguous`).
- A modality survives the store exactly under `Store.ItemRoundTripIff`. The blob-name pattern also accepts a digest
  followed by one line feed, because the pattern's end anchor does.
- "Semantic compression" of a long text raises its token estimate exactly when its first two sentences already hold
  all its words (`Compression.CompressionLengthensIff`); so a pack can leave over budget.
- The bands of the address grid's v axis are disjoint exactly for 12 to 23 v cells (`Mobius.BandsDisjointIff`).
- With ids shared inside a section a drop removes all copies and charges one; the accounts stay exact only under
  `Compression.DropIsExactIff`, over a whole drop phase under `DropPhaseExactIff`, and never err on the low side
  (`DropNeverUnderstates`).
- The SIF v2 frame is measured before its own estimate is written into it; what the caller receives fits only under
  `SifSections.WrittenEstimateIff`. A frame that uses its budget up is accepted and received too big
  (`FullFrameOverflows`).
- The two largest bulk lengths a header can announce overflow when the line end is added to them, which is a panic and
  not an error of the reader (`Resp.OverflowIff`).
- A SIF v1 frame can exceed its budget exactly when the budget has no room for the fixed header, or, from 80 tokens on,
  for a header with a full query (`Sif.NeverOverBudgetIff`).
- Code that is never reached: the splitter's fallback section for a text without sections
  (`Markdown.SplitKeepsText`), the second cut in the SIF text fitter (`Sif.FitCharsIsOneLine`) and the assembler's
  second attempt at a snippet (`Sif.FullEntry`).

## Model

| member | source | states |
|---|---|---|
| Mobius.Grid.Create | engines/living_memoryv2/src/living_memoryv2/mobius.py:31-36 | a grid exists exactly when all three dimensions are positive |
| Mobius.Grid.Wrap | engines/living_memoryv2/src/living_memoryv2/mobius.py:66-77 | every integer triple is folded into the grid, region kept |
| Mobius.Grid.Neighbors | engines/living_memoryv2/src/living_memoryv2/mobius.py:54-64 | fails exactly for negative depth; otherwise returns exactly the cells reached by some offset of 1-norm at most depth, each once, by u, then v, then w |
| Mobius.ReflectStep | engines/living_memoryv2/src/living_memoryv2/mobius.py:79-86 | folding v is compatible with steps: stepping after folding is folding after a step in a direction that does not depend on the step |
| Mobius.ReflectFlip | engines/living_memoryv2/src/living_memoryv2/mobius.py:66-86 | the same across an odd or even number of u wraps |
| Mobius.WrapShift | engines/living_memoryv2/src/living_memoryv2/mobius.py:66-86 | an offset taken after wrapping equals one taken before it, with dv mirrored by the orientation of the point; u wraps add, flips cancel in pairs |
| Mobius.WrapInside | engines/living_memoryv2/src/living_memoryv2/mobius.py:66-77 | a cell keeps its own coordinates |
| Mobius.WrapTurns | engines/living_memoryv2/src/living_memoryv2/mobius.py:66-77 | every circuit of u turns v over, wherever it starts |
| Mobius.WrapMirrors | engines/living_memoryv2/src/living_memoryv2/mobius.py:79-86 | v is mirrored at either end, and the end cells are not doubled |
| Mobius.WrapCycles | engines/living_memoryv2/src/living_memoryv2/mobius.py:66-77 | w is a cycle |
| Mobius.WrapIsTheFolding | engines/living_memoryv2/src/living_memoryv2/mobius.py:66-86 | any folding of the integer triples onto the cells that has these four properties is this one |
| Mobius.CircuitMirrors | engines/living_memoryv2/src/living_memoryv2/mobius.py:66-77 | an odd number of circuits of u mirrors every v, an even number is the identity; on the middle row both are |
| Mobius.AcrossTheEdge | engines/living_memoryv2/src/living_memoryv2/mobius.py:54-77 | the next cell after the last column is in the first column, with v mirrored |
| Mobius.DepthOne | engines/living_memoryv2/src/living_memoryv2/mobius.py:54-64 | the depth-1 neighbours are the cell itself and one step either way on one axis |
| Mobius.NearSymmetric | engines/living_memoryv2/src/living_memoryv2/mobius.py:54-64 | being a depth-d neighbour is symmetric |
| Mobius.BallComposition | engines/living_memoryv2/src/living_memoryv2/mobius.py:54-64 | the (m+n)-neighbourhood is the union of the n-neighbourhoods of the m-neighbourhood |
| Mobius.BallIsDistanceBall | engines/living_memoryv2/src/living_memoryv2/mobius.py:54-64 | the neighbourhoods are the balls of the least-depth distance |
| Mobius.DistanceIsMetric | engines/living_memoryv2/src/living_memoryv2/mobius.py:54-64 | that distance is zero only on equal cells, symmetric, and satisfies the triangle inequality |
| Mobius.RegionBand | engines/living_memoryv2/src/living_memoryv2/mobius.py:96-108 | a region's v cell is always inside the grid |
| Mobius.BandIsReached | engines/living_memoryv2/src/living_memoryv2/mobius.py:96-108 | the digest bytes reach exactly the region's band: an eighth of the axis, at least one cell, from its start, cut off at the last cell; unknown regions have the first band |
| Mobius.BandsDisjointIff | engines/living_memoryv2/src/living_memoryv2/mobius.py:96-108 | known regions never share a v cell, whatever the digest byte, exactly for 12 to 23 v cells |
| JobTable.Table.Publish | internal/adapters/queue/postgres/queue.go:24-35 | inserts a queued row with five attempts to come, or fails and changes nothing if the id is taken |
| JobTable.Table.Claim | internal/adapters/queue/postgres/queue.go:62-90 | takes an eligible row of the topic that no other transaction holds and no such row precedes in availability, or with equal availability in creation; locks it, counts the attempt, and changes no other row; takes nothing only if every eligible row is held |
| JobTable.Table.MarkDone | internal/adapters/queue/postgres/queue.go:107-110 | marks the row done, whatever its state, and no other |
| JobTable.Table.MarkFailed | internal/adapters/queue/postgres/queue.go:112-124 | marks the row failed or for retry in five seconds by its attempts, whatever its state |
| JobTable.Table.Maintain | internal/bootstrap/scheduler.go:81-93 | the rows that vanish are the done ones past retention, the rows that change are the ones stuck in processing for fifteen minutes, which lose their lock and wait for a retry |
| JobTable.WhenClaimable | internal/adapters/queue/postgres/queue.go:67-124 | when a row may be claimed after it was published, claimed, failed, done or unlocked, in times and attempts |
| JobTable.WhenMaintained | internal/bootstrap/scheduler.go:81-93 | when a claimed row is unlocked and a done row is pruned |
| JobTable.FirstAttemptsInOrder | internal/adapters/queue/postgres/queue.go:67-79 | a first attempt is not passed over by a row of its topic that became available later, unless it is locked |
| QueueProtocol.Execute | internal/adapters/queue/postgres/queue.go:24-124 | every event of the protocol is the statement it stands for: the table methods make the same table |
| QueueProtocol.EveryClaimIsInOrder | internal/adapters/queue/postgres/queue.go:67-79 | in every reachable state first attempts are claimed in the order of publishing |
| QueueProtocol.InvReachable | internal/adapters/queue/postgres/queue.go:62-124 | in every interleaving: attempts within bounds, every pass has its own attempt number, done rows had a handler succeed, only such rows disappear |
| QueueProtocol.AttemptsBounded | internal/adapters/queue/postgres/queue.go:62-110 | in every run handler starts of a job never exceed its attempts, attempts never exceed the maximum, starts never repeat an attempt, and a row is gone only after a handler on it succeeded |
| QueueProtocol.ExclusiveLease | internal/adapters/queue/postgres/queue.go:69-90 | while no mark is overtaken, two passes within their lease never hold the same job, and the row is locked in the holder's name |
| QueueProtocol.PunctualWorkersExclude | internal/adapters/queue/postgres/queue.go:69-90 | the same if no worker marks a row more than five minutes after claiming it |
| QueueProtocol.PunctualNeverOvertaken | internal/adapters/queue/postgres/queue.go:69-124 | marks within five minutes are never overtaken by another claim |
| QueueProtocol.TerminalIsFinalReachable | internal/adapters/queue/postgres/queue.go:107-124 | from any reachable state, done and failed rows never change again until pruned, only done rows are pruned, and pruned rows stay gone |
| QueueProtocol.PunctualTerminalIsFinal | internal/adapters/queue/postgres/queue.go:107-124 | the same if no worker marks a row more than five minutes after claiming it |
| QueueProtocol.SafeMarkIff | internal/adapters/queue/postgres/queue.go:107-124 | exactly which marks keep the leases intact and leave terminal statuses alone |
| QueueProtocol.SlowWorkerReopensDone | internal/adapters/queue/postgres/queue.go:69-124 | counterexample run: a late failure turns a done job back to retry |
| QueueProtocol.ExhaustedRowIsStranded | internal/adapters/queue/postgres/queue.go:69-76 | a row with no attempts left and no holder is never claimable and never terminal again |
| QueueProtocol.CanFinishIff | internal/adapters/queue/postgres/queue.go:69-124 | an unfinished row has a continuation in which it becomes done or failed exactly when it has attempts to come or a worker holds it |
| QueueProtocol.CrashesStrandARow | internal/adapters/queue/postgres/queue.go:69-90 | the run that gets there: five claims, each followed by a crash and the end of the lease |
| QueueProtocol.RemainingStep | internal/adapters/queue/postgres/queue.go:69-90 | each claim lowers the sum of remaining attempts by exactly one, publishing adds five, nothing else raises it |
| QueueProtocol.ClaimBudget | internal/adapters/queue/postgres/queue.go:69-90 | in every run claims are covered by what was left at the start plus five per publish |
| Knowledge.SupersedeListed | engines/living_memoryv2/src/living_memoryv2/knowledge.py:358-371 | the loop of updates marks exactly the listed rows as superseded by the new one |
| Knowledge.KnowledgeGraph.AddAssertion | engines/living_memoryv2/src/living_memoryv2/knowledge.py:244-373 | refuses incomplete content unchanged; otherwise replaces the row of its id and supersedes the listed ones, possibly itself |
| Knowledge.KnowledgeGraph.IndexFact | engines/living_memoryv2/src/living_memoryv2/knowledge.py:382-431 | indexes a fact with the assertions of the facts it lists as superseded |
| Knowledge.KnowledgeGraph.IndexMemory | engines/living_memoryv2/src/living_memoryv2/knowledge.py:394-412 | indexes a memory's relations in order, up to the first incomplete one, and succeeds exactly when there is none |
| Knowledge.KnowledgeGraph.Clear | engines/living_memoryv2/src/living_memoryv2/knowledge.py:174-178 | empties the assertion table |
| Facts.SupersedeRows | engines/living_memoryv2/src/living_memoryv2/facts.py:187-201 | the supersession loop marks exactly the listed rows and logs each conflict, or stops at a whitespace-only reference |
| Facts.FactLedger.AddFact | engines/living_memoryv2/src/living_memoryv2/facts.py:109-205 | refuses a blank subject, verb, object or source and a blank reference, and then leaves ledger and graph unchanged; success stores the fact, supersedes and logs the listed ones as conflicts, keeps the other conflicts, and mirrors the stored row |
| Facts.ResolveAfterAdd | engines/living_memoryv2/src/living_memoryv2/facts.py:156-201 | where an older fact leads once a fact is added: to the new fact if its walk met it or a listed one, else where it led before |
| Facts.AddKeepsLedgerIff | engines/living_memoryv2/src/living_memoryv2/facts.py:156-201 | adding a fact, new or again, keeps links sound and every fact leading to an active one exactly when it does not list itself |
| Facts.EveryRunResolves | engines/living_memoryv2/src/living_memoryv2/facts.py:156-201 | in every run without self-listing, re-adds included: superseded exactly when a stored superseder is named, and every walk ends at an active fact within as many steps as calls |
| Facts.SelfLoopNeverResolves | engines/living_memoryv2/src/living_memoryv2/facts.py:187-191 | a fact superseded by itself leads nowhere |
| Identity.FactIdIff | engines/living_memoryv2/src/living_memoryv2/facts.py:132-141 | fact ids are equal exactly when normalised subject, verb and object, the source and both validity bounds are |
| Identity.AssertionIdIff | engines/living_memoryv2/src/living_memoryv2/knowledge.py:291-301 | assertion ids are equal exactly when these and the fact id are |
| Identity.NewIdentityKeepsRows | engines/living_memoryv2/src/living_memoryv2/facts.py:132-191 | after any run a fact that differs from all earlier ones in one of these fields is one row more, and every earlier row stays, superseded if it is listed |
| Identity.LastRequestIsReported | engines/living_memoryv2/src/living_memoryv2/facts.py:127-185 | of the requests of a run with one identity the ledger reports the last: trimmed terms, scope, references, reason, clamped confidence and creation time |
| Identity.ReferencesInOrder | engines/living_memoryv2/src/living_memoryv2/facts.py:130 | references keep their order; empty ones are left out |
| Identity.EveryRunCarries | engines/living_memoryv2/src/living_memoryv2/knowledge.py:414-431 | after every run of adds and memory indexing the assertion of every stored fact carries its content, scope, time, confidence and reason |
| Identity.ItemIsCarried | engines/living_memoryv2/src/living_memoryv2/knowledge.py:394-412 | after indexing a memory's relations each has its assertion, with the memory's id, scope, time and confidence, unless a later one of the same identity took its place |
| Mirror.MirrorStepIff | engines/living_memoryv2/src/living_memoryv2/facts.py:202-205 | one add keeps every fact mirrored by exactly one assertion of the same status and image link, exactly when the fact does not list itself or was stored before |
| Mirror.MemoryKeepsMirror | engines/living_memoryv2/src/living_memoryv2/knowledge.py:394-412 | indexing any part of a memory's relations leaves the mirror exact |
| Mirror.EveryRunMirrors | engines/living_memoryv2/src/living_memoryv2/facts.py:156-205 | in every run of adds and memory indexing without self-listing the graph mirrors the ledger |
| Mirror.SameFactSameKey | engines/living_memoryv2/src/living_memoryv2/knowledge.py:291-301 | among collision-free keys, fact ids and assertion ids identify the same facts; `Identity` says which fields decide |
| Rebuild.IndexLedger | engines/living_memoryv2/src/living_memoryv2/vault.py:240-241 | indexes every stored fact once, the more confident ones first and of these the later ones |
| Rebuild.AddKeepsComplete | engines/living_memoryv2/src/living_memoryv2/facts.py:127-131 | every fact that add_fact stores is one that indexing accepts |
| Rebuild.RebuiltRows | engines/living_memoryv2/src/living_memoryv2/vault.py:239-241 | what any rebuild leaves for each fact: superseded if it was or if a later visited fact lists it, with the last of those as link |
| Rebuild.RebuildRestoresIff | engines/living_memoryv2/src/living_memoryv2/vault.py:239-241 | one visiting order restores all statuses exactly when no active fact is listed by one visited after it |
| Rebuild.LinkRestoredIff | engines/living_memoryv2/src/living_memoryv2/vault.py:239-241 | a link is restored exactly when the last later-visited lister is the ledger's superseder, or neither exists |
| Rebuild.EveryOrderRestoresIff | engines/living_memoryv2/src/living_memoryv2/vault.py:239-241 | all visiting orders whatever restore all statuses exactly when no active fact is listed by another stored fact |
| Rebuild.ListingRestoresIff | engines/living_memoryv2/src/living_memoryv2/vault.py:239-241 | every listing by confidence and creation time, ties in any order, restores all statuses exactly when each active fact is strictly behind every other fact that lists it |
| Rebuild.LinkListingIff | engines/living_memoryv2/src/living_memoryv2/vault.py:239-241 | every listing restores the link of a fact exactly when its superseder lists it and is strictly behind it and all its other listers, or, without a superseder, all other listers are strictly ahead of it |
| Rebuild.MirrorListingIff | engines/living_memoryv2/src/living_memoryv2/vault.py:239-241 | every listing restores the whole mirror, with no assertion too many, exactly when all links are restored |
| Rebuild.ReAddedFactIsRestoredIff | engines/living_memoryv2/src/living_memoryv2/facts.py:156-185 | a superseded fact that is added again is restored by every listing exactly when its superseder is strictly ahead of it, and by none if it is strictly ahead of its superseder |
| Rebuild.ConfidentSuperseder | engines/living_memoryv2/src/living_memoryv2/facts.py:156-185 | an input that loses a link: a superseder with the higher confidence; the status is restored and the superseder forgotten, in every listing |
| Rebuild.RebuildIsOrderIndependent | engines/living_memoryv2/src/living_memoryv2/vault.py:239-241 | for histories that add each fact once and list only stored facts, every order restores every status |
| Rebuild.ReAddedFactIsNotOrderFree | engines/living_memoryv2/src/living_memoryv2/facts.py:156-185 | adding a superseded fact again breaks order independence |
| Vault.MemoryVault.Remember | engines/living_memoryv2/src/living_memoryv2/vault.py:159-169 | stores and logs the memory, then indexes its relations in both graphs; an exception is raised exactly when a relation is refused, and leaves what was done before it |
| Vault.MemoryVault.RebuildIndexes | engines/living_memoryv2/src/living_memoryv2/vault.py:228-241 | clears all tables, replays the log line by line and indexes the ledger; ends early without a log file, at a line that is no envelope and at a refused relation, with what was rebuilt by then |
| Vault.IndexesIff | engines/living_memoryv2/src/living_memoryv2/graph.py:164-178 | remembering raises nothing exactly when every relation has three terms that are not blank and an allowed graph, and the memory's id is not blank |
| Vault.CompletesIff | engines/living_memoryv2/src/living_memoryv2/vault.py:234-238 | the replay gets to the end exactly when every line is blank or an envelope all of whose relations are allowed |
| Vault.ReplayIsFactFree | engines/living_memoryv2/src/living_memoryv2/vault.py:228-238 | up to the facts a rebuild gives no fact an assertion, so an early end leaves none |
| Vault.FactsRestoredIff | engines/living_memoryv2/src/living_memoryv2/vault.py:228-241 | every rebuild restores the statuses of a ledger that holds facts exactly when the log file exists, every line is readable, and each active fact is strictly behind every other fact that lists it |
| Vault.MirrorRestoredIff | engines/living_memoryv2/src/living_memoryv2/vault.py:228-241 | every rebuild makes the knowledge graph the exact mirror of a ledger that holds facts, links included, exactly when the log file exists, every line is readable, and every link is stable |
| Vault.RunIsRebuiltIff | engines/living_memoryv2/src/living_memoryv2/vault.py:159-241 | the log of a run of remember is replayed to the end exactly when no logged text holds a raw line end and no remember of the run raised an exception; then the store tables come back exactly, and the relation tables too unless a creation time was zero |
| Vault.NoLogLosesFacts | engines/living_memoryv2/src/living_memoryv2/vault.py:228-233 | facts without any remembered memory: the rebuild leaves the knowledge graph empty |
| Vault.RawLineEndStopsTheRebuild | engines/living_memoryv2/src/living_memoryv2/vault.py:234-238 | the rebuild of a run, from the text of its log file, breaks off at the first memory logged with a raw line end and leaves the state of the run before it |
| Vault.RefusalStopsTheRebuild | engines/living_memoryv2/src/living_memoryv2/vault.py:167-169 | it breaks off at the first refused memory and leaves the state of the run up to there |
| Vault.FirstRefusalLosesTheRest | engines/living_memoryv2/src/living_memoryv2/vault.py:234-238 | if the first memory of a run is refused, every memory with another id is gone after the rebuild |
| Vault.BlankSubjectLosesMemories | engines/living_memoryv2/src/living_memoryv2/vault.py:234-238 | an input for that: a relation with a blank subject |
| Vault.LineSeparatorStopsTheRebuild | engines/living_memoryv2/src/living_memoryv2/vault.py:234-238 | a remembered text with a line separator, whatever is remembered after it: nothing is rebuilt |
| VaultRuns.EveryRunIsSplit | engines/living_memoryv2/src/living_memoryv2/vault.py:159-169 | in every run of memories and facts the ledger is one that can be indexed, with its links in order, and the rest of the vault is what the memories alone make it |
| VaultRuns.EveryRunIsRebuiltIff | engines/living_memoryv2/src/living_memoryv2/vault.py:228-241 | a run of memories and facts is rebuilt to the end exactly when something was remembered, no logged text holds a raw line end and no memory was refused; then the store tables come back, and the relation rows and the assertions of memories too unless a creation time was zero |
| VaultRuns.EveryRunRestoresFactsIff | engines/living_memoryv2/src/living_memoryv2/vault.py:228-241 | the facts of such a run: their statuses, and the whole mirror, are restored by every rebuild exactly when the run can be rebuilt and the ledger meets the condition on its listers |
| TokenBucket.Limits.Create | internal/adapters/http/middleware/rate_limit.go:32-45 | a missing burst becomes twice the rate, a given one is kept, and limits stay non-negative |
| TokenBucket.Limiter.Allow | internal/adapters/http/middleware/rate_limit.go:47-69 | refills and takes from the key's own bucket, created full, and touches no other key |
| TokenBucket.KeysAreIndependent | internal/adapters/http/middleware/rate_limit.go:47-69 | in every run from any table, each key's verdicts and bucket are those of its own calls alone, on its bucket or on a new full one |
| TokenBucket.SegmentBound | internal/adapters/http/middleware/rate_limit.go:56-67 | any segment of calls admits at most what was in the bucket plus rate times the advance of the bucket's clock, any clock; hence at most burst plus that |
| TokenBucket.WindowBound | internal/adapters/http/middleware/rate_limit.go:56-67 | with a clock that never runs back, no window admits more than burst plus rate times its length, however long the key was idle |
| TokenBucket.EveryRunIsLimited | internal/adapters/http/middleware/rate_limit.go:47-69 | in every run from an empty table, on any keys and with any clock, every contiguous segment of one key's calls admits at most burst plus rate times the advance of the latest time that key has seen |
| TokenBucket.CallIsAdmittedIff | internal/adapters/http/middleware/rate_limit.go:47-69 | the limiter's rule without buckets: with a clock that never runs back, a call on a new key is admitted exactly when, counted from any earlier call or itself, the calls admitted with it are at most burst plus rate times the time since |
| TokenBucket.EveryCallIsAdmittedIff | internal/adapters/http/middleware/rate_limit.go:47-69 | the same for every key of every run from an empty table |
| TokenBucket.RefillTwice | internal/adapters/http/middleware/rate_limit.go:56-63 | refilling in two instalments is refilling once |
| TokenBucket.DeletingDeniedCalls | internal/adapters/http/middleware/rate_limit.go:56-67 | deleting any denied calls from a run changes no other verdict |
| TokenBucket.DeletingDeniedCallsNewKey | internal/adapters/http/middleware/rate_limit.go:50-67 | the same for a key without a bucket, even if its first call is deleted |
| Resp.EncodeCommand | internal/adapters/storage/redis/client.go:113-120 | the builder loop writes the specified command bytes |
| Resp.Reader.ReadLine | internal/adapters/storage/redis/client.go:186-192 | takes the bytes up to a line feed and trims the line end; without one, takes everything and fails |
| Resp.Reader.ReadFull | internal/adapters/storage/redis/client.go:194-204 | however the bytes arrive, fills exactly n or fails at the end of input |
| Resp.Reader.ReadReply | internal/adapters/storage/redis/client.go:131-184 | the stateful recursive reader computes the specified outcome and leaves the specified rest |
| Resp.Reader.ReadItems | internal/adapters/storage/redis/client.go:172-180 | the item loop, going on after error items and stopping at failures |
| Resp.ParseReply | internal/adapters/storage/redis/client.go:131-184 | a reply that is read consumes at least one byte; nothing is ever unread |
| Resp.DecimalDigits | internal/adapters/storage/redis/client.go:113-120 | printed lengths are digits and read back as the same number |
| Resp.CommandRoundTrip | internal/adapters/storage/redis/client.go:113-184 | reading an encoded command gives its arguments, arbitrary bytes included, and leaves exactly what follows |
| Resp.OverflowIff | internal/adapters/storage/redis/client.go:151-163 | of the lengths a bulk header can announce exactly the two largest overflow, whatever follows |
| Resp.WireForm | internal/adapters/storage/redis/client.go:113-184 | how each kind of value is written, in ASCII characters |
| Resp.CommandForm | internal/adapters/storage/redis/client.go:113-120 | how a command is written, in ASCII characters |
| Resp.DecimalIsAscii | internal/adapters/storage/redis/client.go:113-120 | lengths are written in decimal digits, most significant first |
| Resp.NumberIff | internal/adapters/storage/redis/client.go:143-167 | which texts are numbers and of which value: digits with at most one sign before them, in 64 bits |
| Resp.RefusedLine | internal/adapters/storage/redis/client.go:131-184 | which lines are no reply, and with which error; what follows is not read |
| Resp.NegativeLengths | internal/adapters/storage/redis/client.go:151-171 | any negative length stands for the null value |
| Resp.TrailerIsIgnored | internal/adapters/storage/redis/client.go:159-163 | the two bytes after a bulk string are taken whatever they are |
| Resp.ReplyRoundTrip | internal/adapters/storage/redis/client.go:131-184 | the same for every printable value, nested arrays and errors inside arrays included |
| Resp.ReplyExtends | internal/adapters/storage/redis/client.go:131-184 | any verdict but running out of input is final: more bytes change neither it nor what it took |
| Resp.TruncationIsDetected | internal/adapters/storage/redis/client.go:131-204 | every proper prefix of a printed value asks for more input |
| Resp.SimpleRoundTripIff | internal/adapters/storage/redis/client.go:140-142 | a simple line survives exactly when it has no line feed and does not end in a carriage return |
| Receipts.Digest.New | internal/services/audit/receipt.go:31-43 | a new receipt carries its own hash, its predecessor's, and the action as it was given |
| Receipts.ReceiptLog.Append | internal/services/audit/receipt.go:64-81 | extends a valid chain by one receipt, or leaves it as it was when storing fails |
| Receipts.ReceiptLog.Verify | internal/services/audit/receipt.go:84-98 | reports no problem exactly if every receipt names the hash before it and its own is that of its fields joined by the separator, else the first broken position and how it is broken |
| Receipts.PreimageReads | internal/services/audit/receipt.go:45-48 | a hashed text determines the recorded action and the previous hash if the separator is in none of the first texts |
| Receipts.Commitment | internal/services/audit/receipt.go:84-98 | two verified logs with the same last hash have the same length and record the same actions at every position, or two different preimages with one hash are returned |
| Receipts.TamperingIsDetected | internal/services/audit/receipt.go:84-98 | changing a recorded action under an unchanged last hash breaks verification, or yields a collision |
| Receipts.UniqueReadingIff | internal/services/audit/receipt.go:45-48 | a hashed text has one reading exactly when none of its four texts holds the separator |
| Receipts.PipeInTenantIsAmbiguous | internal/services/audit/receipt.go:45-48 | two verified logs of different tenants and ids with the same last hash and no collision |
| Markdown.HeadingOf | engines/living_memoryv2/src/living_memoryv2/ingest.py:40-44 | a heading line has one to six hashes |
| Markdown.HeadingIff | engines/living_memoryv2/src/living_memoryv2/ingest.py:37-47 | a line is a heading of a level exactly if it starts with as many hashes, one to six, whitespace, and one more character |
| Markdown.TitleIsFound | engines/living_memoryv2/src/living_memoryv2/ingest.py:113-115 | a title is found whatever hashes stand before and after it |
| Markdown.ParentIsNearest | engines/living_memoryv2/src/living_memoryv2/ingest.py:45-47 | no heading between a heading and its parent has a smaller level |
| Markdown.PathIsOpenHeadings | engines/living_memoryv2/src/living_memoryv2/ingest.py:41-52 | the path of a heading lists exactly the headings up to it after which no heading of their level or above came |
| Markdown.PathIncreases | engines/living_memoryv2/src/living_memoryv2/ingest.py:45-47 | the stack's levels are strictly increasing |
| Markdown.BelowIsNearest | engines/living_memoryv2/src/living_memoryv2/ingest.py:45-47 | filtering the stack by level is looking up the nearest smaller predecessor |
| Markdown.StackStep | engines/living_memoryv2/src/living_memoryv2/ingest.py:43-47 | popping and pushing the stack gives the recursive heading path |
| Markdown.SplitSections | engines/living_memoryv2/src/living_memoryv2/ingest.py:27-51 | the line loop yields one section per heading with the path of the recursive definition and its lines, preceded by a non-blank preamble |
| Markdown.SectionsHoldLines | engines/living_memoryv2/src/living_memoryv2/ingest.py:32-57 | the sections hold all lines in order but a blank start, and each but a first without heading starts with its only heading, whose title ends its path |
| Markdown.EmitSections | engines/living_memoryv2/src/living_memoryv2/ingest.py:56-69 | numbers sections and chunks and files pathless sections under the source path |
| Markdown.OutputIs | engines/living_memoryv2/src/living_memoryv2/ingest.py:58-69 | every chunk of every section comes out once, in order, with its numbers, under its section's path or the source path |
| Markdown.SplitMarkdownSections | engines/living_memoryv2/src/living_memoryv2/ingest.py:16-69 | refuses bounds up to 80; otherwise every non-whitespace character comes out once and in order, and every chunk is non-empty and within the bound |
| Markdown.SplitKeepsText | engines/living_memoryv2/src/living_memoryv2/ingest.py:26-69 | the same for any bound, and the fallback section is needed only for a blank text |
| Chunking.SplitLongParagraph | engines/living_memoryv2/src/living_memoryv2/ingest.py:99-110 | the cutting loop always advances and yields the specified pieces |
| Chunking.PieceEnd | engines/living_memoryv2/src/living_memoryv2/ingest.py:103-107 | a piece is not empty and not longer than the bound |
| Chunking.PieceEndIs | engines/living_memoryv2/src/living_memoryv2/ingest.py:99-110 | a piece ends with its window or at the last space past the middle of it |
| Chunking.PiecesKeepText | engines/living_memoryv2/src/living_memoryv2/ingest.py:99-110 | the pieces hold all non-whitespace characters in order, each piece non-empty and within the bound |
| Chunking.PackParagraph | engines/living_memoryv2/src/living_memoryv2/ingest.py:78-93 | what one paragraph does to the chunk under way |
| Chunking.ChunkText | engines/living_memoryv2/src/living_memoryv2/ingest.py:72-96 | the packing loop yields the specified chunks |
| Chunking.OneParagraphIff | engines/living_memoryv2/src/living_memoryv2/ingest.py:76 | a text is one paragraph exactly if it has no blank line |
| Chunking.FirstParagraph | engines/living_memoryv2/src/living_memoryv2/ingest.py:76 | the first paragraph ends at the first blank line, and the next starts after what is blank |
| Chunking.FittingParagraphsShareAChunk | engines/living_memoryv2/src/living_memoryv2/ingest.py:72-96 | paragraphs that fit together, with blank lines between them, are one chunk |
| Chunking.FullChunkEnds | engines/living_memoryv2/src/living_memoryv2/ingest.py:72-96 | a chunk ends only where the next paragraph does not fit |
| Text.SplitAtBreak | engines/living_memoryv2/src/living_memoryv2/vault.py:234 | a line ends at any break, and a carriage return with its line feed is one |
| Text.BreaksAre | engines/living_memoryv2/src/living_memoryv2/vault.py:234 | the ten characters that are breaks |
| Text.JoinSplits | engines/living_memoryv2/src/living_memoryv2/ingest.py:35-36 | lines that were joined are split again into the same lines |
| Text.WordsStayApart | engines/living_memoryv2/src/living_memoryv2/ingest.py:113-115 | words apart stay apart by one space when whitespace is collapsed |
| Chunking.ChunksKeepText | engines/living_memoryv2/src/living_memoryv2/ingest.py:72-96 | chunking keeps the non-whitespace characters in order and the bound |
| Chunking.FittingParagraphStaysWhole | engines/living_memoryv2/src/living_memoryv2/ingest.py:78-95 | a paragraph that fits the bound is never cut: some chunk holds it whole |
| Graph.SelectRows | engines/living_memoryv2/src/living_memoryv2/graph.py:352-366 | returns only matching rows, at most the limit, and all of them if the limit is not reached |
| Graph.TouchedIffTrail | engines/living_memoryv2/src/living_memoryv2/graph.py:333-377 | a row is reached by a hop exactly when a chain of rows of that length leads to it, each in an allowed graph and valid at the time, the first naming a term and each next one an end of the one before |
| Graph.ScoreRows | engines/living_memoryv2/src/living_memoryv2/graph.py:369-376 | folding a hop's rows raises scores only, accounts for every row, and invents none |
| Graph.CollectScores | engines/living_memoryv2/src/living_memoryv2/graph.py:332-377 | the hop loop is sound whatever the limits do, and complete if no hop's query is cut off |
| Graph.ScoresAreBestFirstTouches | engines/living_memoryv2/src/living_memoryv2/graph.py:332-377 | then the scored memories are exactly those of rows within reach, each with the largest confidence times the weight of a row's first hop |
| Graph.WorthByHop | engines/living_memoryv2/src/living_memoryv2/graph.py:367-370 | a row is worth its confidence less 15 percent a hop, down to a tenth |
| Graph.FewRowsAreWithinCap | engines/living_memoryv2/src/living_memoryv2/graph.py:352-366 | nothing is cut off if the graph has no more rows than one query returns |
| Graph.Rank | engines/living_memoryv2/src/living_memoryv2/graph.py:379-380 | the ids by score, highest first, then by creation time, latest first, cut as the slice is; no id left out outranks one returned |
| Graph.BestIsFirst | engines/living_memoryv2/src/living_memoryv2/graph.py:379-380 | a memory that scores more than all others comes first, and none left out scores more than one returned |
| Graph.GraphStore.AddRelation | engines/living_memoryv2/src/living_memoryv2/graph.py:150-204 | refuses unknown graphs and empty terms unchanged; otherwise stores a normalised row, in the graph named or in the one its validity bounds suggest, unless one with the same fully bounded key exists |
| Graph.IgnoredIff | engines/living_memoryv2/src/living_memoryv2/graph.py:180-204 | a relation is ignored exactly when a row has its graph, terms, memory and validity bounds, both given |
| Graph.GraphStore.IndexMemory | engines/living_memoryv2/src/living_memoryv2/graph.py:206-223 | stores a memory's relations in order, up to the first refused one, and succeeds exactly when there is none |
| Graph.GraphStore.Walk | engines/living_memoryv2/src/living_memoryv2/graph.py:314-380 | the ranked head of sound scores, complete when nothing is cut off; fails exactly for unknown graphs with usable terms |
| Graph.QueryIsNormalised | engines/living_memoryv2/src/living_memoryv2/graph.py:324-327 | a walk starts from the normalised terms that are not empty, and asks for the normalised graphs |
| Engram.StoreView | engines/living_memoryv2/src/living_memoryv2/engram.py:167-173 | storing an entry changes what is seen under its own slot and signature and nowhere else |
| Engram.PurgeView | engines/living_memoryv2/src/living_memoryv2/engram.py:175-190 | invalidating takes the id out of every view and nothing else |
| Engram.PurgeEach | engines/living_memoryv2/src/living_memoryv2/engram.py:175-190 | the loop over buckets purges every one, drops empty ones, and counts the entries that held the id |
| Engram.CacheRefinesMap | engines/living_memoryv2/src/living_memoryv2/engram.py:107-190 | after any run, whatever the slots collide, a lookup sees exactly the ids cached last for that key less those invalidated since, and record counts agree |
| Engram.KeptAreFirst | engines/living_memoryv2/src/living_memoryv2/engram.py:156-159 | the cached ids are the first distinct ones, in the order in which they first occur, as many as the limit allows |
| Engram.ResultsAreShared | engines/living_memoryv2/src/living_memoryv2/engram.py:215-227 | two queries share results exactly when they agree normalised, in scope and in tags in any order |
| Engram.EntryOnFile | engines/living_memoryv2/src/living_memoryv2/engram.py:76-78 | a new entry starts without hits; a lookup adds one and the time |
| Engram.HeadLength | engines/living_memoryv2/src/living_memoryv2/engram.py:118-127 | how many ids a lookup returns |
| Engram.RunStoresAmong | engines/living_memoryv2/src/living_memoryv2/engram.py:148-190 | in every run the stored entries belong to the keys that were used |
| Engram.SignaturesAreUnique | engines/living_memoryv2/src/living_memoryv2/engram.py:107-190 | after every run, no two entries of the table have the same signature |
| Engram.EngramCache.Create | engines/living_memoryv2/src/living_memoryv2/engram.py:84-105 | the two refusals, and a valid empty cache otherwise |
| Engram.EngramCache.Lookup | engines/living_memoryv2/src/living_memoryv2/engram.py:107-127 | returns a head of the view, counts a hit on the entry or a miss, and a rejection for a miss on a non-empty bucket; lookups stay hits plus misses |
| Engram.EngramCache.Cache | engines/living_memoryv2/src/living_memoryv2/engram.py:148-173 | caches the distinct leading ids; true exactly for a new entry |
| Engram.EngramCache.RecordResult | engines/living_memoryv2/src/living_memoryv2/engram.py:129-146 | counts a non-empty result and caches from the threshold on; true exactly when that makes a new entry |
| Engram.EngramCache.InvalidateMemory | engines/living_memoryv2/src/living_memoryv2/engram.py:175-190 | purges the id, keeps all invariants, and returns the number of entries that held it |
| Engram.EngramCache.Clear | engines/living_memoryv2/src/living_memoryv2/engram.py:192-199 | empties everything |
| Store.ItemRoundTripIff | engines/living_memoryv2/src/living_memoryv2/store.py:279-342 | exactly which modalities come back from the store as they went in |
| Store.StaysInlineIff | engines/living_memoryv2/src/living_memoryv2/store.py:279-287 | a payload stays in the envelope exactly when its bytes are no more than the threshold |
| Store.LargeGoesToBlob | engines/living_memoryv2/src/living_memoryv2/store.py:287-313 | a larger one becomes a blob, named by the recorded digest or the digest of its bytes, and never replaces one |
| Store.ReferenceIsFollowed | engines/living_memoryv2/src/living_memoryv2/store.py:315-342 | a reference is followed exactly when it names a blob that is there, and brings its text back in its form |
| Store.ShaHexIff | engines/living_memoryv2/src/living_memoryv2/store.py:16-18 | blob names are sixty-four hex digits, or these and a line feed |
| Store.TemporalStore.Externalize | engines/living_memoryv2/src/living_memoryv2/store.py:279-313 | moves exactly the large payloads into blobs, never rewriting one |
| Store.TemporalStore.Remember | engines/living_memoryv2/src/living_memoryv2/store.py:99-141 | stores the reduced envelope and the original's address under its id and appends the reduced form to the log |
| Store.TemporalStore.ResolveBlobs | engines/living_memoryv2/src/living_memoryv2/store.py:315-342 | restores every referenced payload or fails at the first bad or missing reference |
| Store.TemporalStore.Inspect | engines/living_memoryv2/src/living_memoryv2/store.py:143-149 | the stored envelope with payloads, or not found |
| Store.TemporalStore.VerifyIntegrity | engines/living_memoryv2/src/living_memoryv2/vault.py:206-226 | splits the log file as the source does and reports exactly the lines that are no envelopes and the envelopes that do not resolve to what their hash covers |
| Store.TemporalStore.ClearIndexes | engines/living_memoryv2/src/living_memoryv2/store.py:229-232 | empties the tables and keeps blobs and log |
| Store.RereadSettles | engines/living_memoryv2/src/living_memoryv2/schema.py:348-366 | one pass through to_dict and from_dict fills everything in, so a second changes nothing |
| Store.RereadFills | engines/living_memoryv2/src/living_memoryv2/schema.py:132-156 | what reading an envelope keeps and what it fills in, field by field |
| Store.StoredIsPlain | engines/living_memoryv2/src/living_memoryv2/store.py:99-104 | the stored form is stable, holds no large payload, and has the original's address |
| Store.LogTextMore | engines/living_memoryv2/src/living_memoryv2/store.py:138-140 | appending a line is logging one envelope more |
| Store.LogReadsBackIff | engines/living_memoryv2/src/living_memoryv2/vault.py:210-214 | the log file reads back as the envelopes that were written exactly when no written text holds one of the three line ends that JSON leaves raw; otherwise it holds a line that is no envelope |
| Store.LogReadsUpTo | engines/living_memoryv2/src/living_memoryv2/vault.py:210-214 | up to the first text with a raw line end the log reads back, and in its place stands a line that is no envelope |
| Store.LineSeparatorBreaksTheLog | engines/living_memoryv2/src/living_memoryv2/vault.py:210-217 | an input for that: one small text with a line separator, reported as an invalid line |
| Store.WritingHolds | engines/living_memoryv2/src/living_memoryv2/store.py:289-297 | writing payloads keeps every blob true to its name, keeps the old ones and adds the new |
| Store.InspectGivesLast | engines/living_memoryv2/src/living_memoryv2/store.py:99-149 | after any run on well-formed envelopes inspect gives the last envelope remembered under the id, payloads included, or not found |
| Store.VerifyReportsNothingIff | engines/living_memoryv2/src/living_memoryv2/vault.py:206-226 | after a run on well-formed envelopes every line is checked and none reported, exactly when no logged text holds a raw line end |
| Store.ReportIff | engines/living_memoryv2/src/living_memoryv2/vault.py:206-226 | what the check reports, exactly: the lines that are no envelopes, and the ids of the envelopes that do not resolve or whose content hash is not that of the content they resolve to; it counts every envelope |
| Store.EditIsReported | engines/living_memoryv2/src/living_memoryv2/vault.py:206-226 | in the log of a run, other content under an old hash is reported, or two contents have one hash |
| Store.AddressIsOfLast | engines/living_memoryv2/src/living_memoryv2/store.py:99-141 | after a run the address under an id is computed from scope, type, modality names, tags, entities and hash of the last envelope remembered under it |
| Compression.CompressionLengthensIff | internal/services/context/compression.go:66-77 | shortening raises the estimate exactly when the first two sentences hold all words, as in any text with fewer than two sentence ends |
| Compression.LeadingSentencesAre | internal/services/context/compression.go:102-113 | the leading sentences are the text up to the end of the n-th one; a text with fewer ends stays as it is |
| Compression.ShortenedIs | internal/services/context/compression.go:66-77 | up to 120 words a memory stays; beyond, its first two sentences are left, with dots |
| Compression.EstimateIs | internal/services/context/compression.go:84-90 | 1.35 tokens a word, rounded down |
| Compression.WordsAddUp | internal/services/context/compression.go:84-90 | words on both sides of whitespace add up |
| Compression.OneWord | internal/services/context/compression.go:84-90 | a text without whitespace is one word |
| Compression.Filtered | internal/services/context/compression.go:92-100 | removes every memory with the id and keeps the order of the rest |
| Compression.RemoveCharges | internal/services/context/compression.go:56-63 | with unique ids, one drop takes away exactly the tokens it is charged for and one memory |
| Compression.RemovalTakesCopies | internal/services/context/compression.go:56-63 | a removal takes the tokens of all copies of the id, of which the first is charged |
| Compression.DropIsExactIff | internal/services/context/compression.go:52-63 | one drop keeps the estimate exact exactly when the first copy carries all tokens of the id, and the number of memories left exactly when there is one copy |
| Compression.DropNeverUnderstates | internal/services/context/compression.go:51-64 | whatever the ids, the estimate never falls below the contents, so a pack that is said to fit does |
| Compression.DropPhaseExactIff | internal/services/context/compression.go:51-64 | whatever the ids, the drop phase is off by the tokens of the copies that left uncharged; it ends exact exactly when the first copy of every dropped id carries all tokens of that id |
| Compression.TwinsAreUndercharged | internal/services/context/compression.go:56-62 | an input that breaks the accounts: two memories with one id |
| Compression.DropPhase | internal/services/context/compression.go:51-64 | the drop loop is the specified one |
| Compression.DropPhaseIsExact | internal/services/context/compression.go:51-64 | dropping stops at the first point at which the pack fits or one memory is left, with exact accounts |
| Compression.VictimsCover | internal/services/context/compression.go:41-49 | in whatever order sorting leaves them, the victims are the pack's memories, each once, with their scores |
| Compression.ScoreIsLast | internal/services/context/compression.go:27-34 | the score of a memory is that of the last candidate with its id, or 0 |
| Compression.AfterFilters | internal/services/context/compression.go:51-64 | after any number of drops each section is the original in its order without the dropped ids |
| Compression.ShortenPhase | internal/services/context/compression.go:66-77 | shortens exactly the long contents and moves the estimate by exactly the change in the total |
| Compression.ShorteningHelps | internal/services/context/compression.go:66-77 | the total does not rise if every long memory goes on past its second sentence |
| Compression.LoneLongMemoryGrowsIff | internal/services/context/compression.go:66-77 | a pack of one long memory grows exactly when that memory does not |
| Compression.ContextPack.EnforceBudget | internal/services/context/compression.go:21-81 | changes nothing without a budget or within it; otherwise drops in some score order, shortens, records the estimate and warns |
| Compression.EnforceBudgetIsExact | internal/services/context/compression.go:35-80 | with unique ids and a correct start: a first part of the score order is dropped and nothing else, no dropped memory outscores a kept one, the drop phase ends fitting or with one memory, and the final estimate is the total over the remaining contents |
| Sif.Assembler.Create | engines/living_memoryv2/src/living_memoryv2/sif.py:61-66 | refuses budgets that are not positive; characters per token are at least one |
| Sif.OneLineFits | engines/living_memoryv2/src/living_memoryv2/sif.py:215-223 | a one-line text is within its bound and has plain spaces as its only whitespace |
| Sif.OneLineShowsText | engines/living_memoryv2/src/living_memoryv2/sif.py:215-223 | it shows the text's non-whitespace characters in order: all of them if they fit with single spaces, else a first part, with or without dots |
| Sif.OneLineUsesRoom | engines/living_memoryv2/src/living_memoryv2/sif.py:215-223 | a text that is cut uses its room up, but for one character at most |
| Sif.FitCharsIsOneLine | engines/living_memoryv2/src/living_memoryv2/sif.py:205-213 | the fitter never makes its second cut |
| Sif.Assembler.FitMicro | engines/living_memoryv2/src/living_memoryv2/sif.py:147-175 | the bare entry if it fits, with every further part that still fits |
| Sif.Assembler.Assemble | engines/living_memoryv2/src/living_memoryv2/sif.py:68-129 | results in key order or as given, placed one by one, with the ids kept, the number dropped and the estimate of the text |
| Sif.InOrderIs | engines/living_memoryv2/src/living_memoryv2/sif.py:69-81 | urgent results come first, then the higher score, importance, confidence and creation time decide, in this turn |
| Sif.HeaderShowsQuery | engines/living_memoryv2/src/living_memoryv2/sif.py:136-145 | the header shows a query whole that has at most 72 characters and room |
| Sif.FullEntry | engines/living_memoryv2/src/living_memoryv2/sif.py:89-108 | a long entry is the attribute line and a non-empty one-line cut of the text, always within the budget at the first attempt |
| Sif.FullEntryUsesBudget | engines/living_memoryv2/src/living_memoryv2/sif.py:89-108 | a long entry is placed exactly when its attributes leave a token for a text that is not blank; it shows the whole text or leaves less than a token and one character unused |
| Sif.FittingExtrasAreShown | engines/living_memoryv2/src/living_memoryv2/sif.py:147-175 | if all extras fit after the bare entry, all are shown |
| Sif.MetaLineIs | engines/living_memoryv2/src/living_memoryv2/sif.py:177-200 | the attribute line: number, id, attributes, and how to see the memory whole |
| Sif.BareReads | engines/living_memoryv2/src/living_memoryv2/sif.py:147-175 | the number and the id can be read off a bare entry |
| Sif.VisitKeepsIff | engines/living_memoryv2/src/living_memoryv2/sif.py:83-119 | a result is kept exactly when its bare entry still fits; otherwise only the dropped count changes |
| Sif.FrameFitsIff | engines/living_memoryv2/src/living_memoryv2/sif.py:68-145 | a frame fits the budget exactly when its header line does |
| Sif.NeverOverBudgetIff | engines/living_memoryv2/src/living_memoryv2/sif.py:68-145 | the settings under which no query and results can exceed the budget |
| Sif.DefaultNeverOverBudget | engines/living_memoryv2/src/living_memoryv2/sif.py:68-145 | at four characters a token every budget from four tokens on is kept |
| Sif.RunAccounts | engines/living_memoryv2/src/living_memoryv2/sif.py:68-129 | kept and dropped make up the results; kept ones are in order, each with its own entry numbered from 1 that names its id |
| SifSections.PopOne | engines/living_memoryv2/src/living_memoryv2/sif.py:371-384 | one pass pops the last item of the first non-empty list, or finds all empty |
| SifSections.FitSections | engines/living_memoryv2/src/living_memoryv2/sif.py:357-386 | terminates with the fewest pops after which the frame fits, or with all lists empty |
| SifSections.WrittenEstimateIff | engines/living_memoryv2/src/living_memoryv2/sif.py:387-388 | the frame the caller receives, with the estimate written in, fits exactly when there was room for that text too, and exceeds the tested one by at most its tokens |
| SifSections.FullFrameOverflows | engines/living_memoryv2/src/living_memoryv2/sif.py:371-388 | an input for that: a frame that uses its budget up is accepted when it is tested and too big when it is received |
| SifSections.CutIsFrontFirst | engines/living_memoryv2/src/living_memoryv2/sif.py:360-384 | after any number of pops each list is a beginning of its original, touched only when all earlier ones are empty, and the count is exact |
| SifSections.FrontFirstIsCut | engines/living_memoryv2/src/living_memoryv2/sif.py:360-384 | those properties determine the lists |

## Left out

- Facts.FactLedger.AddFact: the relation-graph rows it writes on another connection inside its transaction are not modelled; of the graph only its refusal of a whitespace-only reference is.
- Knowledge.KnowledgeGraph.AddAssertion: the entity and conflict tables and the graph row it writes are not modelled, and the superseded ids are a set, so their order by observation time is not.
- Knowledge.KnowledgeGraph.Clear: the entity and conflict tables that it also empties are not modelled.
- Vault.MemoryVault.Remember: rule-based extraction of facts and the membership of boxes are not modelled, nor are the graph rows that the knowledge graph writes for each assertion.
- Vault.MemoryVault.RebuildIndexes: the fact and conflict rows of the relation graph that it also rebuilds are not modelled; their terms are never blank, so they raise nothing.
- JobTable.Table.Claim: one statement is atomic and sees one clock.
- Graph.SelectRows: which rows a limited query without an order returns is not promised by SQL and is left open.
- Graph.Rank: the order of memories with equal score and creation time is left open.
- Compression.ContextPack.EnforceBudget: the six named sections are a list of sections, ties in the sort are left open, and removal in place on a shared slice is removal from a value, so a second alias of the same slice is not modelled.
- Sif.Assembler.Assemble: the attribute strings (scores with two decimals, sources, tags, governance) and the governed prompt text of a result are given, not computed.
- SifSections.FitSections: the encoding of the frame around the lists is a parameter.
- Store.TemporalStore.Remember: modality names are taken as already lower-cased, scores as already clamped, relation items as well-typed, and `bytes` payloads, which JSON cannot carry, do not exist. The full-text row is not modelled.
- Receipts.ReceiptLog.Append: persisting a receipt is a verdict given to the method.
- Engram.EngramCache.Lookup: n-gram hashing is an arbitrary function from normalised text to slots; nothing is proved about how well it spreads.
- TokenBucket.Limiter.Allow: rounding of floating-point token counts is not modelled.
- Resp.Reader.ReadReply: the overflow of the two largest bulk lengths, a panic, is an outcome of its own; the panic on other announced bulk or array lengths that exceed what the machine can allocate is not modelled, so such a reply runs out of input here. Reconnecting after an error and the network are not modelled.
- The polling loop of `Subscribe` and its waits; `processNext` appears as the events of `QueueProtocol`.
- Mutexes of the Go types: each method is one atomic step.
- HTTP handlers, SDK clients, command line, configuration, telemetry and the tool server: plumbing without state of their own.
- Remote adapters (vector stores, object stores, brokers, model providers) and encryption: foreign code.
- Ranking heuristics, lifecycle weights, pattern-based extraction and redaction: tuned constants without an invariant.
- The compaction job and consolidation service: they work on stale copies, and no convergence property holds.
