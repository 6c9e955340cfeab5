# SLHA: a verified model

This project models the core of a compressed key-value cache and the code around
it, in Dafny, and proves what that code is for:

- **The elastic cache and its event log** (`SlotOrder`, `CacheModel`,
  `CacheInvariants`, `CacheBudget`, `CacheSinks`, `CacheTrace`, `CacheAttention`, `CacheRuns`, `ElasticCache`;
  `RecordStreams`, `LogFormat`, `LogIntegrity`, `LogOps`, `EventLogs`; `Tiles`, `Fnv`,
  `Words`). The cache is a class whose methods are proved equal to functions on a
  value; the file is a byte string of which a prefix is known to be synchronized;
  each I/O call of an append may fail, including the truncation that rolls back.
  Main results: the invariant of every reachable state, the order of harshness
  and the shortest evicted prefix of the budget pass, no loss over whole runs with
  faults, exact recovery from a cut at any byte, detection of any one-byte change.
- **In-place numeric loops** (`Sums`, `Rotations`, `Jacobi`, `Hadamard`), over the
  reals: the Jacobi eigensolver keeps its algebraic invariant in every sweep, and
  the butterfly loops equal the recursive Walsh-Hadamard transform.
- **JSON, framing and the MCP server** (`JsonText`, `JsonPrinter`, `JsonParser`,
  `JsonRoundTrip`, `Utf8`, `Framing`, `Lifecycles`, `Mcp`, `Server`, `ServerOutput`):
  an exact round trip through printer and parser (RFC 8259, sections 2 to 7), a
  bounded line reader that does not depend on how bytes arrive, the lifecycle of
  JSON-RPC 2.0 (sections 4.1 and 5) sessions, and the whole server loop whose output parses back
  to its replies.
- **Codecs** (`Weights`, `Ranks`, `Residual`, `UniformQuant`, `Codec`, `Sections`,
  `RankDataset`): canonical file formats in both directions, tie-averaged ranks,
  packed sign hashes and a uniform quantiser, separable correction planes, and a
  dataset reader.

`dafny verify dfyconfig.toml` checks everything. `Results` holds the shared option
and result types, `Floats` the split of floating-point inputs into finite and other
values.

## Conventions

Machine words are integers with their bounds, bit operations are arithmetic on
them, and floating-point fields that are only stored are bit patterns.
Floating-point computation is over the reals; square roots, the exponential and
the decimal rendering of non-integers are parameters given by the property they
must have (`sqrt` by its square, `exp` positive, `show` by reading back where a round
trip needs it). File, stream and sort primitives of the platform are modelled by
what they return. Error messages are kept where they are part of a response and
reduced to error kinds elsewhere.

In `Mcp` the texts the server says about itself, the tool schemas and the tool
bodies are parameters. `ServerOutput.Sound` says what they must satisfy for the
output to parse back: they fit the depth limit, have unique keys, and their numbers
read back; `ServerOutput.FloorShowReads` shows that its demands on numbers can be met.

There are three places where documentation and code differ; the code is followed. The
sink window is documented as a number of positions, but it is compared through a
32-bit conversion. That a sink goes only when nothing but sinks is left holds for
every window (`CacheBudget.SinksPinned`), because a larger window documents every
position as a sink. The order among sinks is another matter: `CacheSinks.DocumentedIff`
says that the documented order holds if and only if the window is below 2^32 or a
multiple of it, and `CacheSinks.LargeWindowMisorders` gives the cache that breaks it. The
serializer's depth limit is documented as mirroring the parser's, and both count
alike, but the elided text is not JSON, so a value nested deeper does not come back as
anything: `JsonRoundTrip.DocumentReads` says when exactly a document parses. A
correction plane is documented as separable, but a tile that also carries the
mixed-codec flag is decoded as mixed, and the cache still drops the plane:
`Codec.DropMovesIffNotMixed` says when exactly the drop does what is promised.

## Model

| member | source | states |
|---|---|---|
| `ElasticCache.ElasticKvCache.Insert` | scirust/src/ccos.rs:229-259 | a new tile reuses the most recently freed slot or grows the arena, gets the next sequence number and the state its own WARM flag asks for, and starts with zero importance; the whole new state is that of the specification |
| `ElasticCache.ElasticKvCache.PageOut` | scirust/src/ccos.rs:369-379 | HOT becomes WARM with residual and lambda zeroed and the flag set, other slots and states unchanged; the invariant is kept |
| `ElasticCache.ElasticKvCache.DropCorrection` | scirust/src/ccos.rs:386-397 | the correction plane is zeroed once, on live slots that have one, and the counter loses exactly its bytes; the result says whether that happened |
| `ElasticCache.ElasticKvCache.Evict` | scirust/src/ccos.rs:404-438 | a slot goes COLD and onto the free list only if the durability mode allows it; a refused eviction is counted and leaves the slot live |
| `ElasticCache.ElasticKvCache.Rehydrate` | scirust/src/ccos.rs:451-463 | the latest record of a sequence number is reinserted; an unknown number is none, an unreadable log an error |
| `ElasticCache.ElasticKvCache.ObserveScores` | scirust/src/ccos.rs:275-317 | softmax masses of the live scores are added to their slots, refused arguments change nothing |
| `ElasticCache.ElasticKvCache.EnforceBudget` | scirust/src/ccos.rs:555-614 | the four mutating passes equal the specification's four phases; the result is true exactly when the sum of all slot footprints fits the budget |
| `ElasticCache.ElasticKvCache.LiveBytes` | scirust/src/ccos.rs:488-490 | the O(1) counter is the sum of the footprints of all slots |
| `CacheRuns.ReachableInv` | scirust/src/ccos.rs:105-129 | in every state reachable from a new cache the counter equals the sum of footprints, the free list is duplicate-free and exactly the COLD slots, sequence numbers are distinct and below the next one, and a live slot is WARM iff its tile says so |
| `CacheRuns.RunKeepsInv` | scirust/src/ccos.rs:131-150 | along any run from a state with this invariant, it holds in every state; a run only asks that each call does not panic |
| `CacheInvariants.InsertKeepsInv` | scirust/src/ccos.rs:239-259 | insertion keeps the invariant, overwrites only a COLD slot and leaves every other slot as it was |
| `CacheInvariants.EvictKeepsInv` | scirust/src/ccos.rs:404-438 | eviction keeps the invariant under every I/O outcome |
| `CacheInvariants.EnforceKeepsInv` | scirust/src/ccos.rs:555-614 | a whole budget pass keeps the invariant |
| `CacheRuns.FootprintsNeverGrow` | scirust/src/ccos.rs:470-485 | over any stretch of a run in which no insertion or rehydration fills a slot, the slot's footprint never grows |
| `CacheTrace.EnforceLeads` | scirust/src/ccos.rs:555-614 | the listed actions of a budget pass, taken in turn, lead exactly to its final state |
| `CacheTrace.EnforceJustified` | scirust/src/ccos.rs:555-614 | every action of a pass is taken over budget, and at that moment: a tile is paged only if no HOT slot has a droppable plane, a WARM plane is dropped only if nothing is HOT, a slot is evicted only if every live slot is WARM without a droppable plane |
| `CacheTrace.PhaseIsShortestPrefix` | scirust/src/ccos.rs:560-611 | each phase acts on a prefix of its order, over budget before every action, and stops at the budget or the end |
| `CacheTrace.PagedExactly` | scirust/src/ccos.rs:568-574 | each paged tile frees exactly 32 bytes and the fewest tiles that suffice are paged, in order |
| `CacheTrace.EnforcePagesInOrder` | scirust/src/ccos.rs:526-546 | over a whole pass a slot that left HOT comes before every slot still HOT: lowest impact first never pages a higher sigma while a lower one stays HOT, oldest first never a newer tile |
| `CacheTrace.SurvivesOnlyIfRefused` | scirust/src/ccos.rs:404-438 | over a whole pass, under any faults: a slot survives one that is later in the eviction order and went COLD only if its own eviction was attempted in that pass and refused |
| `CacheTrace.CausalUnderFaults` | scirust/src/ccos.rs:585-611 | the causal policy under any faults: an older tile outlives a newer one that went COLD only if a refused eviction of the older one is in the trace |
| `CacheBudget.EvictsOnlyWhenExhausted` | scirust/src/ccos.rs:585-611 | nothing is evicted unless every live slot is already WARM without a droppable plane |
| `CacheBudget.PagesOnlyWithoutHotPlanes` | scirust/src/ccos.rs:560-574 | if a tile leaves HOT, the first phase had left no HOT slot with a droppable plane, and none has one at the end |
| `CacheBudget.DropsWarmPlanesOnlyWithoutHot` | scirust/src/ccos.rs:568-583 | if a WARM plane is dropped, the second phase had left nothing HOT, and nothing is HOT at the end |
| `CacheBudget.EvictsShortestPrefix` | scirust/src/ccos.rs:585-613 | with no blocked eviction the evicted slots are the shortest prefix of the policy order that fits the budget, and the budget is met |
| `CacheBudget.OverBudgetOnlyIfBlocked` | scirust/src/ccos.rs:585-613 | the cache can stay over budget only if an eviction was blocked, hence only in durable mode |
| `CacheBudget.CausalEvictsOldestFirst` | scirust/src/ccos.rs:585-611 | in a pass without refused evictions the causal policy never evicts a newer tile while an older one survives; the form under faults is `CacheTrace.CausalUnderFaults` |
| `CacheBudget.ImportanceEvictsSinksLast` | scirust/src/ccos.rs:585-611 | the importance policy evicts a sink only after all non-sinks, then by lowest cumulative attention, then by age |
| `CacheBudget.SinkWindowExact` | scirust/src/ccos.rs:591-603 | the comparison with the converted window tells the same positions apart as the documented one if and only if the window fits 32 bits |
| `CacheBudget.SinksPinned` | scirust/src/ccos.rs:78-88 | for every window, a tile at one of its positions is evicted only when every surviving tile is at one of them too |
| `CacheSinks.DocumentedIff` | scirust/src/ccos.rs:591-603 | the documented order, with the first positions of the window last, then lowest cumulative attention, then age, holds for all caches, faults, evicted and surviving slots if and only if the window is below 2^32 or a multiple of it |
| `CacheSinks.LargeWindowMisorders` | scirust/src/ccos.rs:591-603 | for every other window, a cache of two documented sinks whose attended tile is evicted while the one without attention survives |
| `CacheAttention.ObserveAddsUnitMass` | scirust/src/ccos.rs:275-317 | an accepted observation adds exactly one unit of importance in total, all of it on live slots |
| `CacheRuns.NoLossFromNew` | scirust/src/ccos.rs:404-438 | in every run from a new cache that is given a durable log before its first eviction, under every pattern of rolled-back I/O failures, each issued sequence number is live in exactly one slot, or it went COLD and its latest record, already synchronized, holds the tile as it was then |
| `CacheRuns.NoLoss` | scirust/src/ccos.rs:404-438 | the same for every run from a state with a durable log in which every issued number is live |
| `CacheRuns.RehydratesExactly` | scirust/src/ccos.rs:451-463 | after any such run a tile that went COLD is rehydrated exactly, under the next sequence number |
| `CacheRuns.CrashLosesNothing` | scirust/src/eventlog.rs:260-320 | after any such run the file may be cut at any byte past the synchronized prefix: recovery succeeds and every tile that went COLD is found unchanged |
| `CacheRuns.RehydratesFromNew` | scirust/src/ccos.rs:451-463 | the same from a new cache: in every run that attaches a durable log before its first eviction, a tile that went COLD comes back exactly, under the next sequence number |
| `CacheRuns.CrashFromNew` | scirust/src/eventlog.rs:260-320 | the same from a new cache: after such a run any cut past the synchronized prefix recovers with every tile that went COLD |
| `SlotOrder.SortOrders` | scirust/src/ccos.rs:526-546 | the stable sort orders slots strictly by key and then by slot |
| `EventLogs.EventLog.Append` | scirust/src/eventlog.rs:330-360 | under every seek, write and truncation outcome the new file and the result are those of the specification |
| `EventLogs.EventLog.AppendDurable` | scirust/src/eventlog.rs:366-388 | a durable append that succeeds has synchronized its record; a failed one is rolled back if truncation works |
| `EventLogs.EventLog.ReadAll` | scirust/src/eventlog.rs:456-469 | reads every counted record, or reports the first bad or short one, in file order |
| `EventLogs.EventLog.FetchBySeq` | scirust/src/eventlog.rs:475-480 | returns the latest record of a sequence number |
| `EventLogs.Open` | scirust/src/eventlog.rs:260-320 | opening, strict or recovering, yields exactly the log or the error the format prescribes, and leaves the file as the format prescribes: a recovery has cut the tail also when a record then turns out bad |
| `EventLogs.ComputeChecksum` | scirust/src/eventlog.rs:148-170 | the hash loop computes the record checksum |
| `LogOps.AppendExact` | scirust/src/eventlog.rs:330-360 | unless a partial write cannot be rolled back, an append adds exactly one record or nothing |
| `LogOps.AppendDurableExact` | scirust/src/eventlog.rs:366-388 | success means the record is on durable storage; failure leaves the old contents, possibly followed by the record |
| `LogOps.IntactUnlessTorn` | scirust/src/eventlog.rs:345-358 | a log stays intact over an append if and only if no partial write is left behind, and a torn file is refused by strict opening |
| `LogOps.AppendAllExact` | scirust/src/eventlog.rs:330-360 | any number of appends to an intact log, none of which leaves a partial write, adds exactly the accepted records in order, in contents and in bytes; all of them when every write succeeds |
| `LogOps.CreatedAndAppended` | scirust/src/eventlog.rs:330-360 | any number of such appends to a created log yields exactly the encoding of the accepted records, which reads back |
| `LogOps.AppendsAfterRecovery` | scirust/src/eventlog.rs:260-360 | any number of appends after a recovery reads back as the surviving prefix followed by the accepted records |
| `LogOps.LatestIsLast` | scirust/src/eventlog.rs:475-480 | lookup finds a record exactly when one exists, and the last one |
| `LogIntegrity.BuiltLogIntact` | scirust/src/eventlog.rs:330-360 | the encoding of any list of records is an intact log that reads back exactly those records |
| `LogIntegrity.OpensWhole` | scirust/src/eventlog.rs:260-320 | a file of whole valid records opens, strictly or recovering, as exactly that log |
| `LogIntegrity.CrashRecovery` | scirust/src/eventlog.rs:260-320 | whatever byte at or after the header a log is cut at, recovery yields exactly the complete records, and strict opening succeeds iff nothing is left over |
| `LogIntegrity.CutOutcome` | scirust/src/eventlog.rs:260-320 | wherever an intact log is cut, also inside the header, opening succeeds if and only if the header survived and, unless recovering, no partial record is left |
| `LogIntegrity.RecordChangeCaught` | scirust/src/eventlog.rs:412-431 | changing any one byte of a valid version-2 record makes it invalid |
| `LogIntegrity.AnyByteChangeCaught` | scirust/src/eventlog.rs:438-449 | changing any one byte of any record of a version-2 log makes opening fail, in both modes |
| `LogFormat.RecordRoundTrip` | scirust/src/eventlog.rs:412-431 | a record written in either version decodes to itself |
| `LogFormat.RecordCanonical` | scirust/src/eventlog.rs:412-431 | every accepted version-2 record is the encoding of its contents |
| `Tiles.TileDecodesEncoded` | scirust/src/eventlog.rs:78-142 | decoding the 128-byte image of a tile returns the tile |
| `Tiles.TileEncodesDecoded` | scirust/src/eventlog.rs:78-142 | every 128-byte string is the image of the tile it decodes to |
| `Fnv.SingleByteChangeDetected` | scirust/src/eventlog.rs:148-170 | changing exactly one byte always changes the FNV-1a checksum, from any starting hash |
| `Fnv.MixInjectiveInHash` | scirust/src/eventlog.rs:148-170 | for a fixed byte one FNV-1a step is injective in the hash |
| `Fnv.MixInjectiveInByte` | scirust/src/eventlog.rs:148-170 | for a fixed hash one FNV-1a step is injective in the byte |
| `Jacobi.JacobiEigh` | scirust/src/linalg.rs:13-79 | the eigenvector array is orthonormal and reconstructs the input from the final matrix, whose diagonal is returned with the input's trace; the off-diagonal norm lost exactly the squares of the eliminated entries; when the sweeps converge every pair solves the eigenvalue equation within the tolerance |
| `Jacobi.Sweep` | scirust/src/linalg.rs:35-74 | one in-place sweep keeps symmetry, orthonormality, reconstruction and trace, and lowers the squared off-diagonal norm by exactly the squares of the entries it eliminated, none of them negligible |
| `Jacobi.RotationStep` | scirust/src/linalg.rs:37-72 | one rotation keeps all of these, zeroes its entry and lowers the squared upper off-diagonal norm by exactly the square of that entry |
| `Jacobi.EliminatesEntry` | scirust/src/linalg.rs:41-49 | the tangent chosen by the code annihilates the entry, for every symmetric matrix |
| `Jacobi.OffDecreases` | scirust/src/linalg.rs:51-64 | the exact decrease of the off-diagonal norm |
| `Jacobi.ComputeOff` | scirust/src/linalg.rs:23-31 | the loop sums the squares of the upper triangle |
| `Jacobi.EigenpairAccuracy` | scirust/src/linalg.rs:23-34 | the squared residual of every eigenpair is at most the remaining off-diagonal norm, so the stopping test bounds the error |
| `Rotations.RotationOrthonormal` | scirust/src/linalg.rs:65-71 | accumulating a rotation keeps the eigenvector columns orthonormal |
| `Rotations.RotationReconstructs` | scirust/src/linalg.rs:51-71 | rotating matrix and eigenvectors together keeps the product that reconstructs the input |
| `Rotations.RotationFrobenius` | scirust/src/linalg.rs:51-64 | a two-sided rotation keeps the Frobenius norm |
| `Rotations.RotationTrace` | scirust/src/linalg.rs:51-64 | a two-sided rotation keeps the trace |
| `Hadamard.NextPow2` | scirust/src/incoherence.rs:29-35 | the result is the least power of two not below the argument |
| `Hadamard.FwhtInPlace` | scirust/src/incoherence.rs:45-70 | the in-place butterflies and the scaling pass equal the recursive transform of the old contents, for every power-of-two length |
| `Hadamard.VectorInvolution` | scirust/src/incoherence.rs:37-44 | the scaled transform is its own inverse |
| `Hadamard.VectorOrthogonal` | scirust/src/incoherence.rs:37-44 | the scaled transform keeps every dot product |
| `Hadamard.TransformInto` | scirust/src/incoherence.rs:114-125 | copying, padding, signs and the in-place transform yield the randomised transform of the input |
| `Hadamard.RandomisedOrthogonal` | scirust/src/incoherence.rs:114-125 | the randomised transform keeps every dot product, for inputs of any length |
| `JsonRoundTrip.DocumentReads` | scirust/src/json.rs:85-148 | compact or pretty output parses back to the same value if and only if containers are nested at most 64 deep and object keys are unique; otherwise the parser refuses it |
| `JsonRoundTrip.ValueReads` | scirust/src/json.rs:238-268 | the same for a value at any nesting level followed by any text that cannot continue it |
| `JsonRoundTrip.CompactOneLine` | scirust/src/json.rs:72-76 | compact output never contains a raw newline |
| `JsonRoundTrip.NumberReads` | scirust/src/json.rs:94-98 | an integer printed without a fraction reads back as itself |
| `JsonRoundTrip.EscapeReads` | scirust/src/json.rs:199-215 | every escaped character reads back as itself |
| `JsonPrinter.AppendValue` | scirust/src/json.rs:85-148 | the loops append exactly the rendering of the value |
| `JsonPrinter.AppendQuoted` | scirust/src/json.rs:199-215 | the loop appends the escaped string between quotes |
| `JsonParser.ParseWithLimit` | scirust/src/json.rs:164-187 | a text is accepted, with the value of the grammar, if and only if it is within the size limit and is one document whose numbers are in the finite range |
| `JsonParser.Parser.ReadValue` | scirust/src/json.rs:238-268 | the cursor reads the value the grammar prescribes and restores the nesting counter, also on failure |
| `JsonParser.Parser.ReadElements` | scirust/src/json.rs:428-448 | the element loop equals the recursive grammar |
| `JsonParser.Parser.ReadMembers` | scirust/src/json.rs:449-490 | the member loop with its set of seen keys equals the grammar that refuses repeated keys |
| `JsonParser.Parser.ReadString` | scirust/src/json.rs:353-394 | the string loop equals the grammar: escapes decoded, control characters refused |
| `JsonParser.Parser.ReadUnicodeEscape` | scirust/src/json.rs:397-412 | surrogate pairs are combined, lone surrogates refused |
| `JsonParser.Parser.ReadNumber` | scirust/src/json.rs:277-352 | the number grammar of RFC 8259 with the value the digits denote; magnitudes that round to infinity in 64 bits are refused |
| `Framing.ReadFrame` | slha-mcp/src/main.rs:78-126 | whatever pieces the reader delivers, the call reports the next line of the whole stream, or its being too long, the end or a read error; the buffer never exceeds the limit |
| `Framing.FramesAreLines` | slha-mcp/src/main.rs:73-77 | the frames of a stream are its newline-split lines in order, each judged by its own length |
| `Framing.SplitJoins` | slha-mcp/src/main.rs:97-121 | splitting a stream into lines and a tail loses nothing |
| `Framing.SplitUnique` | slha-mcp/src/main.rs:97-121 | newline-free lines written one after the other split back into the same lines |
| `Utf8.DecodeEncoded` | slha-mcp/src/main.rs:152-168 | strict decoding returns the encoded text |
| `Utf8.EncodeDecoded` | slha-mcp/src/main.rs:152-168 | accepted bytes are exactly the encoding of the text they decode to |
| `Utf8.NewlineEncoded` | slha-mcp/src/main.rs:128-131 | the newline byte appears in encoded text only where the text has a newline |
| `Mcp.HandleReplies` | slha-mcp/src/main.rs:303-427 | nothing is answered exactly to a well-formed notification; a request is answered under its own id; anything malformed gets error -32600 with a null id |
| `Mcp.ReplyIsResponse` | slha-mcp/src/main.rs:431-451 | every rendered reply is a JSON-RPC 2.0 response object (section 5) with the reply's id and either a result or an error |
| `Mcp.HandleMoves` | slha-mcp/src/main.rs:307-391 | the lifecycle moves only by a faultless initialize and by the notification that completes it |
| `Mcp.HandleInitializes` | slha-mcp/src/main.rs:213-301 | initialize succeeds exactly when it is a faultless request and comes first |
| `Mcp.HandleGuardsTools` | slha-mcp/src/main.rs:394-418 | tool listing and tool calls succeed only when the server is ready |
| `Mcp.ReadyAfterHandshake` | slha-mcp/src/main.rs:52-64 | over every message sequence the server is ready if and only if an initialize succeeded and the initialized notification came later |
| `Mcp.LifecycleNeverBack` | slha-mcp/src/main.rs:52-64 | over every message sequence the lifecycle never goes back |
| `Mcp.ToolsNeedHandshake` | slha-mcp/src/main.rs:394-418 | over every message sequence no tool list or call succeeds before the handshake |
| `Mcp.InitializedOnce` | slha-mcp/src/main.rs:213-216 | over every message sequence initialize succeeds at most once |
| `Server.McpServer.Serve` | slha-mcp/src/main.rs:133-193 | the main loop writes exactly the responses to the frames of its input, in order, one per line |
| `Server.McpServer.Answer` | slha-mcp/src/main.rs:144-182 | one frame is answered as specified: too long, undecodable, blank, unparsable or handled |
| `ServerOutput.OutputReadsBack` | slha-mcp/src/main.rs:128-131 | the output of every session splits into one line per reply, and each line decodes and parses back to that reply |
| `ServerOutput.SessionReadable` | slha-mcp/src/main.rs:133-193 | every reply of every session fits the depth limit, has unique keys and readable numbers |
| `ServerOutput.LimitUnreached` | slha-mcp/src/main.rs:174 | text from a frame within the limit never meets the parser's own size limit |
| `Weights.WeightsRoundTrip` | scirust/src/weights.rs:86-136 | parsing a serialized finite projection returns dimension, seed, flag and projection bit for bit |
| `Weights.WeightsCanonical` | scirust/src/weights.rs:159-270 | every accepted version-2 byte string is exactly what the serializer emits for its contents |
| `Weights.WeightsChangeCaught` | scirust/src/weights.rs:159-245 | any change of one byte of an accepted version-2 file, header included, is refused |
| `Weights.FileSize` | scirust/src/weights.rs:50-65 | the checked arithmetic gives a size if and only if the exact file size fits the machine word, and then that size |
| `Weights.WriteWeights` | scirust/src/weights.rs:86-136 | the building loops with the patched checksum yield the specified bytes or error |
| `Weights.ReadWeights` | scirust/src/weights.rs:159-270 | the reading loops yield the specified contents or error |
| `Weights.WeightsChecksum` | scirust/src/weights.rs:68-80 | the running hash covers header and payload |
| `Ranks.ComputeRanks` | scirust/src/metrics.rs:109-142 | for finite input the rank of i is the number of smaller values plus half the number of other equal ones; with any non-finite value there are no ranks |
| `Ranks.RanksSum` | scirust/src/metrics.rs:104-142 | the ranks of n values sum to n(n-1)/2 |
| `Ranks.RanksOfMapped` | scirust/src/metrics.rs:104-142 | ranks are unchanged by any strictly increasing map of the values |
| `Ranks.RunRank` | scirust/src/metrics.rs:124-139 | the average position of a run of equal values is the counted rank of each of them |
| `Residual.EstimateIsSignDot` | scirust/src/residual.rs:96-109 | the popcount estimate of two packed hashes equals the dot product of their sign vectors, for every number of bits |
| `Residual.Encode` | scirust/src/residual.rs:85-95 | the packing loop puts each sign into its bit and leaves unused bits clear |
| `Residual.DotEstimate` | scirust/src/residual.rs:98-109 | the loop counts differing bits, missing words counting as zero |
| `Residual.RoundsAreOneDot` | scirust/src/residual.rs:245-252 | the rounds add up to the dot product of all their signs side by side, so one round is the single hash |
| `Residual.MultiRoundEstimate` | scirust/src/residual.rs:246-252 | the estimate is the mean of the rounds |
| `UniformQuant.QuantIsNearest` | scirust/src/residual.rs:135-146 | no level is nearer to a value than the one of its code |
| `UniformQuant.LevelQuantises` | scirust/src/residual.rs:121-146 | every level is quantised to its own code |
| `UniformQuant.QuantKeepsSign` | scirust/src/residual.rs:135-146 | with an even number of levels the upper half of the codes is exactly the non-negative values |
| `Codec.CodeIsPlaneBits` | slhav2-vram/src/codec.rs:289-306 | the two-byte window read yields bits 3d to 3d+2 of the code plane and nothing else |
| `Codec.DropMoves` | slhav2-vram/src/codec.rs:289-340 | dropping the plane moves each covered dimension by exactly one correction step times its group scale and leaves every other dimension as it was |
| `Codec.DropMovesIffNotMixed` | slhav2-vram/src/codec.rs:231-246 | for flags with a plane to drop, this holds for every tile, scale and dimension if and only if the mixed flag is clear |
| `Codec.MixedSpills` | slhav2-vram/src/codec.rs:269-282 | a tile with the mixed flag whose dimension 119 goes from 1 to -8 when the plane is dropped |
| `Codec.ScoreDrift` | slhav2-vram/src/codec.rs:165-178 | the coarse score drifts by at most the matching sum of query magnitudes |
| `Codec.ScoreDriftIffNotMixed` | slhav2-vram/src/codec.rs:165-178 | for flags with a plane to drop, the bound holds for every query, tile and scale if and only if the mixed flag is clear |
| `Codec.DotCoarse` | slhav2-vram/src/codec.rs:165-178 | the loop computes the dot product of the query with the decoded latent |
| `Codec.ValidDrops` | slhav2-vram/src/codec.rs:200-229 | a tile with a valid flag combination and a plane to drop is never a mixed one |
| `Codec.WarmRoundTrip` | slhav2-vram/src/codec.rs:115-142 | unpacking the packed form gives the tile back exactly when its residual plane is zero, and packing always undoes unpacking |
| `Codec.PagedTilePacks` | slhav2-vram/src/codec.rs:115-142 | a paged-out tile survives the packed form |
| `RankDataset.AcceptedEncoded` | scirust/src/rank_dataset.rs:227-379 | whatever is accepted is well formed, and the file is exactly its encoding |
| `RankDataset.EncodedAccepted` | scirust/src/rank_dataset.rs:227-379 | every well-formed layer is accepted and comes back as it was |
| `RankDataset.AcceptedSize` | scirust/src/rank_dataset.rs:350-356 | the input length is exactly what header and counts imply |
| `RankDataset.RowsInBounds` | scirust/src/rank_dataset.rs:48-80 | every row of an accepted dataset can be taken, with slices of the right sizes |
| `RankDataset.RowsPartition` | scirust/src/rank_dataset.rs:330-342 | the rows' score slices partition both score arrays, in order |
| `RankDataset.ParseLayer` | scirust/src/rank_dataset.rs:227-379 | the reading loops accept exactly what the specification accepts |
| `Sections.Cursor.ReadWords` | scirust/src/rank_dataset.rs:152-205 | the cursor loop reads a column of words or stops at a short read |

## Left out

- Rounding, overflow, NaN and infinities of floating-point arithmetic; a Jacobi or Hadamard input is a matrix or vector of reals, and printing of non-finite numbers as null is not part of the model.
- Rounding of parsed numbers and decimal printing of non-integers: the digits are given their exact value, and the rendering is a parameter. The finite range is the exact set of magnitudes that do not round to infinity.
- SIMD kernels, CUDA, the C interface, Python bindings, NUMA pinning and memory allocation failure (a capacity requested for a huge count aborts in the original).
- Real files, standard input and output: byte strings with outcomes per call. A crash keeps a prefix of the file that includes all synchronized bytes; reordered or partially zeroed sectors are not modelled. A failure to cut or synchronize the tail while a log is being opened is not modelled either. A failing write to standard output, which ends the original server, is not modelled.
- `create` on an existing path, exclusive creation and file permissions; `fetch_last_for_slot`, which is the same lookup on another field.
- `try_score`, `score_all`, `counts`, `nocorr_count` and other read-only reports of the cache.
- The headers of the event log under change: a changed version word selects the legacy path without checksums, and reserved bytes are not checked, so the one-byte claim is about records only.
- The tool bodies of the server, the JSON schemas of its tools, and the text of parser and decoder complaints.
- UTF-8 inside the JSON parser: the parser model works on characters, as the server decodes and checks the whole frame first; byte offsets in messages are not kept.
- `topk_overlap`, Pearson and Spearman correlation, cosine, softmax and the other metrics; `QuantResidual`, PCA fitting, training, RoPE and all statistical claims.
- `validate_chunk_layout`, `indices_for_chunks`, and reading a dataset or weights file from a path with its size cap.
- `score_hot` beyond its two terms: the coarse term and the popcount term are modelled separately.
- ElasticCache.ElasticKvCache.Insert: requires that the 64-bit sequence counter does not overflow, where the original would panic or wrap.
- ElasticCache.ElasticKvCache.Rehydrate: the same bound on the sequence counter, and read errors of the medium appear only as a short or invalid file.
- ElasticCache.ElasticKvCache.ObserveScores: importance and softmax are over the reals, with the exponential as a parameter.
- CacheRuns.NoLossFromNew: asks that a failed write that left bytes behind is rolled back; `LogOps.IntactUnlessTorn` shows that this is exactly the condition under which the file stays framed.
- Jacobi.JacobiEigh: the matrix is a two-dimensional array instead of a flat row-major one, the input is symmetric as the code assumes, and convergence within 100 sweeps is not claimed.
- Hadamard.FwhtInPlace: the power-of-two assertion of the original is a precondition.
- Hadamard.TransformInto: the diagonal of signs is given, not drawn from the generator.
- JsonPrinter.AppendValue: non-finite numbers do not exist in the model.
- JsonRoundTrip.DocumentReads: numbers are integers below 10^15 in magnitude, or others whose rendering is assumed to read back.
- Weights.ReadWeights: stops at the four stored parts; the random projection that the loaded model derives from the seed is not built.
- Ranks.ComputeRanks: ranks are exact halves instead of 32-bit floats, and the vector of NaN for non-finite input is the absence of ranks.
- Residual.Encode: starts from the projections, not from the random hyperplanes.
- Codec.DropMoves: excludes tiles that also carry the mixed-codec flag, where it is false: `Codec.MixedSpills` is such a tile, and `Codec.DropMovesIffNotMixed` gives the exact condition. Validation refuses those flags, the cache does not look at them.
- Codec.ScoreDrift: excludes the same tiles, with the exact condition in `Codec.ScoreDriftIffNotMixed`.
- RankDataset.ParseLayer: signed fields are bit patterns; checks of a column are made after reading it instead of during, so which of two faults is reported first is not modelled.
