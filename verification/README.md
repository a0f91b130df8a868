# Proved core of the flight-control middleware

This project models, in Dafny, the parts of the repository whose correctness rests on an
argument rather than on a reading, and proves that argument. Each module follows one source
file; code that updates fields, arrays or links in place is written the same way here, and
is tied to a specification about which the theorems are stated.

- **Compression** (`Bits`, `HeatshrinkSpec`, `HeatshrinkEncoder`): the heatshrink LZSS encoder
  with its ten states, sliding buffer, search index, pruned match search, bit packing and
  backlog shift. Its output is the block-free greedy parse of all its input, so decoding gives
  the data back for every byte sequence when `window_size + lookahead_size >= 7`, and for no
  smaller sum: `[1]` then decodes to something longer.
- **Format pipeline** (`FormatRecords`, `FormatPipeline`): dependency ordering by depth-first
  search, record serialization, compression. The search succeeds exactly when the dependencies
  are defined and acyclic, and decoding followed by parsing gives the same records back exactly
  when no field text holds a NUL.
- **Linear algebra** (`MatrixAlgebra`, `LuFactors`, `MatrixInverse`, `SmallInverse`, `Cholesky`):
  inversion by LU with row swaps, the closed forms for two and three rows, Cholesky
  factorization and the inverse built from it, over exact reals.
- **Message translation** (`GraphPaths`, `GraphComponents`, `TranslationGraph`, `Registration`,
  `PubSubGraph`, `ServiceGraph`): breadth-first translation with input barriers, reconciliation of publications
  and subscriptions over connected components, and the request/response proxy over any run.
- **Parameters** (`SparseSlots`, `SparseLayers`, `BitWords`, `LayeredParameters`, `Autosave`):
  sorted slot arrays that behave as maps, a full cache that agrees with the uncached lookup, the
  ownership bitset and its population count, and the timing of autosave.
- **Buffers, lists and checks** (`Rings`, `BlockingQueue`, `ConsoleBuffer`, `IntrusiveLists`,
  `Crc`): a two-party bounded queue step by step, a ring buffer as a window on a stream, two
  intrusive lists, CRC-16 and CRC-32.

Four findings are results of their own:

- With `window_size + lookahead_size < 7` the zero bits that fill the last byte can complete a
  back-reference (`HeatshrinkSpec.PaddingBreaks`).
- Autosave can get stuck, in two ways. Disabling it while a save is under way cancels the work item,
  which then refuses new work until the handler returns, while a request made in that time still sets
  the flag (`Autosave.StuckRun`); and a request that sets the flag between the two halves of
  disabling has its work cancelled (`Autosave.StuckByCancel`). Either way every later request returns
  at once, until autosave is disabled again. No other change is lost: with nothing in progress, every
  change that is neither saved nor given up has an attempt pending, unless autosave is stuck
  (`Autosave.ParamAutosave.BetweenRuns`). A request whose steps nothing comes between leaves an
  attempt pending exactly if autosave is enabled and the work item is not being cancelled, unless
  autosave is stuck already or the time stamp of a run, which covers the change, is still to come
  (`Autosave.ParamAutosave.Request`).
- Attempts can come closer than two seconds. A schedule is early if the work queue accepts it with a
  due time less than two seconds after the last attempt, or between the start of a run and its time
  stamp while no cancellation is about to follow. Without an early schedule attempts are two seconds
  apart in every run (`Autosave.ParamAutosave.SpacedUnlessEarly`), and the first early one can always
  be continued to two that are not (`Autosave.EarlyBreaks`). Schedules are never early as long as each
  comes in the same epoch as the check of its request, between two starts, time stamps or disablings;
  otherwise the stale schedule can be early (`Autosave.StaleRequest`), or lead to a run in which a
  request with nothing between its steps is (`Autosave.EarlyAtomicRequest`).
- A check of 16 bits detects every difference within 16 consecutive bits and misses one within 17
  (`Crc.BurstDetected`, `Crc.SeventeenBitsUndetected`).

Where the code and its comments disagree, the model follows the code: the poll function's
"more output" result is never returned, because the comparison that guards it compares a pointer
with a number, so termination is proved from the bound on the output instead.

## Model

| member | source | states |
|---|---|---|
| HeatshrinkSpec.DecodeStream | src/lib/heatshrink/heatshrink_encode.py:316-359 | a decoder of the bit grammar reads any valid token stream back, whatever bits follow it |
| HeatshrinkSpec.CommonPrefixIs | src/lib/heatshrink/heatshrink_encode.py:282-285 | the common prefix is characterized by agreement up to it and a difference after it |
| HeatshrinkSpec.ScanIsNearestLongest | src/lib/heatshrink/heatshrink_encode.py:266-299 | the naive scan returns a longest match over all candidate positions, and the nearest of that length |
| HeatshrinkSpec.StepIsCalledFor | src/lib/heatshrink/heatshrink_encode.py:266-299 | a token is the greedy one exactly if it is the nearest of the longest repetitions in the window, when that takes fewer bits than its literals, and otherwise a literal; stated on the data alone |
| HeatshrinkSpec.ParseIsGreedy | src/lib/heatshrink/heatshrink_encode.py:239-263 | a finished parse, built with a full lookahead at every step, is the one greedy parse |
| HeatshrinkSpec.GreedyIsCalledFor | src/lib/heatshrink/heatshrink_encode.py:239-299 | there is one way to cover the data with tokens that are each called for in this sense: the greedy parse |
| HeatshrinkSpec.ParseStable | src/lib/heatshrink/heatshrink_encode.py:239-263 | tokens chosen with a full lookahead stay greedy whatever data arrives later |
| HeatshrinkSpec.ExpandParse | src/lib/heatshrink/heatshrink_encode.py:239-263 | expanding a greedy parse, overlapping matches included, gives the data back |
| HeatshrinkSpec.StepCost | src/lib/heatshrink/heatshrink_encode.py:295-299 | a token costs at most nine bits a byte, and a back-reference fewer than its literals would |
| HeatshrinkSpec.SpecSize | src/lib/heatshrink/heatshrink_encode.py:393-421 | n bytes encode to at most 9n + 7 bits |
| HeatshrinkSpec.SpecRoundTrip | src/lib/heatshrink/heatshrink_encode.py:393-421 | decoding the specified encoding of any data gives the data |
| HeatshrinkSpec.PaddingBreaks | src/lib/heatshrink/heatshrink_encode.py:367-375 | with short fields the padding of a one-byte message decodes to more bytes |
| HeatshrinkSpec.RoundTripsIff | src/lib/heatshrink/heatshrink_encode.py:393-421 | the round trip holds for all data exactly when a back-reference takes at least eight bits |
| HeatshrinkEncoder.IndexEntries | src/lib/heatshrink/heatshrink_encode.py:95-100 | 16-bit index entries hold every buffer position for windows up to 2^14, and 0xffff reads as -1 |
| HeatshrinkEncoder.PrevSameIsLast | src/lib/heatshrink/heatshrink_encode.py:168-183 | an index entry is the last earlier position with the same byte |
| HeatshrinkEncoder.SearchedOne | src/lib/heatshrink/heatshrink_encode.py:276-293 | following one link skips no position that could match |
| HeatshrinkEncoder.Pruned | src/lib/heatshrink/heatshrink_encode.py:278-280 | a position whose byte at the best length differs cannot beat the best match |
| HeatshrinkEncoder.Encoder.DoIndexing | src/lib/heatshrink/heatshrink_encode.py:168-183 | every index entry links to the previous occurrence of its byte |
| HeatshrinkEncoder.Encoder.CompareAt | src/lib/heatshrink/heatshrink_encode.py:282-285 | the comparison loop finds the common prefix, capped at maxlen - 1 but at least 1 |
| HeatshrinkEncoder.Encoder.FindLongestMatch | src/lib/heatshrink/heatshrink_encode.py:266-299 | the pruned walk along the index returns what the naive scan returns, if it is past the break-even cut |
| HeatshrinkEncoder.Encoder.MatchHere | src/lib/heatshrink/heatshrink_encode.py:248-254 | the match in the buffer is the greedy token for the whole stream |
| HeatshrinkEncoder.Encoder.PushBits | src/lib/heatshrink/heatshrink_encode.py:44-59 | appends exactly the given bits, most significant first, across byte boundaries |
| HeatshrinkEncoder.Encoder.Sink | src/lib/heatshrink/heatshrink_encode.py:142-165 | takes as many bytes as fit, which extend the stream; misuse changes nothing |
| HeatshrinkEncoder.Encoder.Finish | src/lib/heatshrink/heatshrink_encode.py:230-236 | marks the stream complete and tells whether all of it has been output |
| HeatshrinkEncoder.Encoder.StStepSearch | src/lib/heatshrink/heatshrink_encode.py:239-263 | the search step keeps the encoder's invariant and enters the right state |
| HeatshrinkEncoder.Encoder.StYieldBrIndex | src/lib/heatshrink/heatshrink_encode.py:338-347 | the distance field comes out whole, eight bits at most at a time |
| HeatshrinkEncoder.Encoder.StYieldBrLength | src/lib/heatshrink/heatshrink_encode.py:350-359 | the length field comes out whole, and the token is then part of the parse |
| HeatshrinkEncoder.Encoder.ShiftWindow | src/lib/heatshrink/heatshrink_encode.py:378-390 | after the shift the buffer is the same view of the stream, further along |
| HeatshrinkEncoder.Encoder.Poll | src/lib/heatshrink/heatshrink_encode.py:186-227 | ends with everything output that can be, and the returned bytes extend the output |
| HeatshrinkEncoder.EncodeBlock | src/lib/heatshrink/heatshrink_encode.py:405-420 | one round consumes at least a byte, and the last round leaves nothing behind |
| HeatshrinkEncoder.Encode | src/lib/heatshrink/heatshrink_encode.py:393-421 | terminates with the bits of the tokens that are called for at each position, padded; they decode to the data and obey the size bound |
| FormatRecords.ReadRecordBytes | src/middleware/uorb/uORB/uORBMessageFields.cpp:67-121 | a serialized record without NUL in its fields is read back, with the rest of the input untouched |
| FormatRecords.ParseSerialize | tools/msg/px_generate_uorb_compressed_fields.py:77-106 | any list of such records is read back from its serialization |
| FormatRecords.SerializationIsUnique | tools/msg/px_generate_uorb_compressed_fields.py:77-106 | parsing undoes serialization exactly when no fields hold a NUL |
| FormatPipeline.DefinitionTable.GetOrderedListByDependency | tools/msg/px_generate_uorb_compressed_fields.py:63-74 | the names new to the table, each after its dependencies; always fails on a cycle, never on a shallow tree |
| FormatPipeline.EnoughDepth | tools/msg/px_generate_uorb_compressed_fields.py:63-74 | acyclic defined dependencies never nest deeper than there are definitions |
| FormatPipeline.DefinitionTable.OrderedNames | tools/msg/px_generate_uorb_compressed_fields.py:210-217 | every definition once, before everything it depends on; succeeds exactly for defined, acyclic dependencies |
| FormatPipeline.PackIds | tools/msg/px_generate_uorb_compressed_fields.py:86-89 | two bytes for each identifier, the low one first; fails exactly when one does not fit 16 bits |
| FormatPipeline.DefinitionTable.PackDefinition | tools/msg/px_generate_uorb_compressed_fields.py:82-102 | the bytes of the definition's ids, its dependencies' main ids and its text, or an error exactly when a list or a value does not fit |
| FormatPipeline.DefinitionTable.GetFieldDefinitions | tools/msg/px_generate_uorb_compressed_fields.py:77-106 | the serialization of the records in the given order, and the format list beside it |
| FormatPipeline.DefinitionTable.Generate | tools/msg/px_generate_uorb_compressed_fields.py:210-223 | decompressing and parsing gives, in dependency order, records with the ids, the main ids of the dependencies and the text of each definition, exactly when no text holds a NUL |
| MatrixAlgebra.MulAssociates | src/lib/matrix/Matrix.hpp:159-175 | matrix multiplication is associative |
| MatrixAlgebra.TransposeOfProduct | src/lib/matrix/Matrix.hpp:452-465 | the transpose of a product is the product of the transposes in reverse |
| MatrixInverse.SetIdentity | src/lib/matrix/Matrix.hpp:555-565 | every entry is that of the identity |
| MatrixInverse.SwapRows | src/lib/matrix/Matrix.hpp:572-588 | exchanges two rows and nothing else |
| MatrixInverse.SwapCols | src/lib/matrix/Matrix.hpp:590-606 | exchanges two columns and nothing else |
| LuFactors.SwapKeepsFactors | src/lib/matrix/SquareMatrix.hpp:399-404 | swapping rows of U and P, and rows and columns of L, keeps every row of A rebuilt from L and U |
| LuFactors.EliminationKeepsFactors | src/lib/matrix/SquareMatrix.hpp:422-431 | one column of elimination keeps the partial factorization and advances it |
| LuFactors.ColumnSolved | src/lib/matrix/SquareMatrix.hpp:440-487 | a column solved forward and backward is mapped by A to the unit column |
| LuFactors.RightInverseIsLeft | src/lib/matrix/SquareMatrix.hpp:378-501 | a right inverse of a factored matrix is a left inverse |
| MatrixInverse.TryPivot | src/lib/matrix/SquareMatrix.hpp:392-407 | the pivot search keeps the factorization; afterwards the pivot is usable, or no entry below it is and nothing moved |
| MatrixInverse.EliminateColumn | src/lib/matrix/SquareMatrix.hpp:422-431 | the in-place row updates are one elimination step |
| MatrixInverse.ForwardSubstitution | src/lib/matrix/SquareMatrix.hpp:440-458 | every column becomes the solution of the lower system, in place |
| MatrixInverse.BackSubstitution | src/lib/matrix/SquareMatrix.hpp:465-487 | every column becomes the solution of the upper system, in place |
| MatrixInverse.SubstitutionsInvert | src/lib/matrix/SquareMatrix.hpp:440-499 | both substitutions together give the inverse, on both sides |
| MatrixInverse.Eliminate | src/lib/matrix/SquareMatrix.hpp:390-432 | factors the leading part with pivots that all reach 2^-23, or stops at a column without a usable pivot |
| MatrixInverse.InvLU | src/lib/matrix/SquareMatrix.hpp:378-501 | on success A * X and X * A are identities on the leading rank block, for every rank and swap pattern, and the factors found had pivots of at least 2^-23; failure means no usable pivot |
| SmallInverse.ScaledInverse | src/lib/matrix/SquareMatrix.hpp:504-542 | dividing a two-sided adjugate by the determinant gives the inverse |
| SmallInverse.Adjugate2Times | src/lib/matrix/SquareMatrix.hpp:512-515 | the adjugate of a 2-by-2 matrix times the matrix is the determinant times the identity, on both sides |
| SmallInverse.Adjugate3Times | src/lib/matrix/SquareMatrix.hpp:531-539 | the adjugate of a 3-by-3 matrix times the matrix is the determinant times the identity, on both sides |
| SmallInverse.Inv2 | src/lib/matrix/SquareMatrix.hpp:503-518 | succeeds exactly when the determinant reaches the tolerance, and then inverts |
| SmallInverse.Inv3 | src/lib/matrix/SquareMatrix.hpp:520-542 | succeeds exactly when the determinant reaches the tolerance, and then inverts |
| Cholesky.Decompose | src/lib/matrix/SquareMatrix.hpp:566-607 | every entry is what the recurrence asks for, zero above the diagonal |
| Cholesky.ZeroColumns | src/lib/matrix/SquareMatrix.hpp:566-607 | no computed pivot is negative, and a zero pivot has an empty column |
| Cholesky.ComputedIsFactor | src/lib/matrix/SquareMatrix.hpp:566-607 | for symmetric A with positive pivots, L times its transpose is A |
| Cholesky.PositiveIffFactorable | src/lib/matrix/SquareMatrix.hpp:561-607 | all pivots are positive exactly when A has a positive lower factor, and that factor is unique |
| Cholesky.FactorInverse | src/lib/matrix/SquareMatrix.hpp:615-620 | from an inverse of the factor, the transposed product is an inverse of A |
| Cholesky.Multiply | src/lib/matrix/Matrix.hpp:158-175 | the accumulating loops compute the product |
| Cholesky.Transpose | src/lib/matrix/Matrix.hpp:452-465 | the loops compute the transpose |
| Cholesky.Inverse | src/lib/matrix/SquareMatrix.hpp:547-559 | the inverse, or the zero matrix when the inversion for that size is refused |
| Cholesky.CholeskyInv | src/lib/matrix/SquareMatrix.hpp:615-620 | for symmetric A with positive pivots the result inverts A on both sides, or is zero if inverting the factor is refused |
| Cholesky.NotRefused | src/lib/matrix/SquareMatrix.hpp:615-620 | the factor is not refused if its diagonal, and for two and three rows the product of it, reaches the tolerance |
| GraphPaths.NoneShorter | msg/translation_node/src/graph.h:212-239 | when all visited nodes are finished, no path leads out and none is shorter than the recorded one |
| GraphPaths.SearchResult | msg/translation_node/src/graph.h:201-240 | the visited nodes are the reachable ones, each with the callbacks along a shortest path |
| TranslationGraph.EventSnoc | msg/translation_node/src/graph.h:79-90 | firing only when all inputs were marked since the last firing keeps that true of the whole history |
| TranslationGraph.Graph.AddNodeIfNotExists | msg/translation_node/src/graph.h:160-168 | a new identifier gets the next index, a known one changes nothing |
| TranslationGraph.Graph.AddTranslation | msg/translation_node/src/graph.h:173-191 | the translation is added and known to each of its inputs |
| TranslationGraph.Graph.TryTranslate | msg/translation_node/src/graph.h:83-90 | fires exactly when every input bit is set, then clears them |
| TranslationGraph.Graph.MarkAndTry | msg/translation_node/src/graph.h:225-227 | marks one input, and fires exactly if that completes the inputs marked since the last firing |
| TranslationGraph.Graph.FollowLink | msg/translation_node/src/graph.h:215-238 | skips a translation exactly if one of its outputs was visited, else marks its input and, if it fires, visits its outputs in order |
| TranslationGraph.NothingWaits | msg/translation_node/src/graph.h:212-239 | when the queue is empty, every input that is a visited node was marked in this call, unless an output is visited |
| TranslationGraph.FiringStays | msg/translation_node/src/graph.h:83-90 | for any numbers of inputs and outputs, each firing leaves in its outputs the callback's results for the input buffers as they were when it fired |
| TranslationGraph.Graph.Translate | msg/translation_node/src/graph.h:201-240 | the buffers are those that the fired translations leave, run in order; each node is written and called at most once, the source never, no two firings write the same node, no visited input is forgotten; with single inputs and outputs exactly the other reachable nodes are called, nearest first, with shortest-path values |
| TranslationGraph.Graph.IterateBFS | msg/translation_node/src/graph.h:259-282 | visits exactly the nodes that translations lead to, each once, the start first |
| GraphComponents.ConnectedTransitive | msg/translation_node/src/graph.h:259-282 | being connected composes |
| GraphComponents.ReachableIsConnected | msg/translation_node/src/graph.h:201-282 | with single inputs and outputs, translating reaches what traversing reaches |
| GraphComponents.SameComponent | msg/translation_node/src/translation_util.h:202-217 | with paired translations, connected nodes have the same component |
| GraphComponents.OneWayIsNotSymmetric | msg/translation_node/src/graph.h:173-191 | a translation without its reverse connects one way only |
| Registration.RegisteredTranslations.RegisterTranslation | msg/translation_node/src/translation_util.h:181-218 | appends the topics and both directions, which stay paired and acceptable |
| Registration.RegisteredTranslations.RegisterDirectTranslation | msg/translation_node/src/translation_util.h:51-69 | the same for one older and one newer topic; the callbacks turn one message into the other with the two functions given |
| Registration.RegisteredTranslations.RegisterServiceDirectTranslation | msg/translation_node/src/translation_util.h:103-145 | appends both services, and both directions for requests and for responses, between the same identifiers, with callbacks that apply the four functions given |
| Registration.PairsArePaired | msg/translation_node/src/pub_sub_graph.cpp:29-33 | the graph built from registered pairs has every translation in both directions |
| Registration.FullTopicName | msg/translation_node/src/util.h:42-51 | an absolute name stays; a relative one follows the namespace after exactly one slash |
| Registration.BuildTranslations | msg/translation_node/src/service_graph.cpp:35-44 | the graph holds exactly the registered translations, between the nodes of the names under the namespace |
| Registration.DirectInGraph | msg/translation_node/src/translation_util.h:51-69 | in the graph, a direct translation leads from the one node to the other and turns one message into the other with the registered function |
| Registration.DirectOnPath | msg/translation_node/src/translation_util.h:51-69 | along a path, a direct translation makes the next value from the one before and what its output held |
| PubSubGraph.PubSubGraph.constructor | msg/translation_node/src/pub_sub_graph.cpp:8-37 | a node for every topic name under the namespace, and exactly the registered translations |
| PubSubGraph.RequiredMeaning | msg/translation_node/src/pub_sub_graph.cpp:92-97 | the counting rule holds exactly when some publisher and some subscriber of the component are different nodes |
| PubSubGraph.PubSubGraph.MarkTopics | msg/translation_node/src/pub_sub_graph.cpp:41-66 | the flags are set for exactly the known topics with a publisher or subscriber, and all others cleared |
| PubSubGraph.PubSubGraph.CountExternal | msg/translation_node/src/pub_sub_graph.cpp:75-97 | the counts are those of the component as a set |
| PubSubGraph.PubSubGraph.SettleNode | msg/translation_node/src/pub_sub_graph.cpp:98-135 | one node gets a new publication and subscription or loses them, and keeps those it needs |
| PubSubGraph.PubSubGraph.EndpointsApart | msg/translation_node/src/pub_sub_graph.cpp:98-135 | no two publications or subscriptions ever share a handle |
| PubSubGraph.ComponentSettled | msg/translation_node/src/pub_sub_graph.cpp:99-135 | settling one component leaves every node settled with its component or untouched |
| PubSubGraph.PubSubGraph.UpdateCurrentTopics | msg/translation_node/src/pub_sub_graph.cpp:39-138 | in every iteration order, endpoints exist exactly where the topics call for them; existing ones are kept, new ones get handles never used before, and a second call changes nothing |
| PubSubGraph.OneOutcome | msg/translation_node/src/pub_sub_graph.cpp:39-138 | two reconciled states for the same topics have the same endpoints |
| PubSubGraph.PubSubGraph.OnSubscriptionUpdate | msg/translation_node/src/pub_sub_graph.cpp:140-154 | one message for each node with a publication that a fired translation writes, with what the translations leave there; with single inputs and outputs these are the other connected nodes, as translated on a shortest path |
| PubSubGraph.Delivery | msg/translation_node/src/pub_sub_graph.cpp:39-154 | after reconciliation a publisher's message is passed on to exactly the subscribers elsewhere in its component |
| ServiceGraph.ForwardKeeps | msg/translation_node/src/service_graph.cpp:182-191 | recording a forward keeps the ledger: each request forwarded once, forwarded = pending + closed |
| ServiceGraph.CloseKeeps | msg/translation_node/src/service_graph.cpp:193-230 | closing an entry keeps the ledger: each answer goes once, to the node it came from with its identifier |
| ServiceGraph.WayBack | msg/translation_node/src/service_graph.cpp:193-214 | wherever a request can be translated to, its response can be translated back from |
| ServiceGraph.BuildServices | msg/translation_node/src/service_graph.cpp:17-26 | the request graph and the response graph get the same nodes with the same indexes |
| ServiceGraph.RegisteredMirror | msg/translation_node/src/service_graph.cpp:35-44 | registered services give direct translations, each with its reverse, the same for requests and responses |
| ServiceGraph.ServiceGraph.constructor | msg/translation_node/src/service_graph.cpp:12-44 | mirrored graphs with exactly the registered translations, and nothing pending |
| ServiceGraph.ServiceGraph.OnNewRequest | msg/translation_node/src/service_graph.cpp:182-191 | sent to one nearest client that the node reaches, if there is one, and recorded; an unused sequence number overwrites nothing |
| ServiceGraph.ServiceGraph.OnResponse | msg/translation_node/src/service_graph.cpp:193-214 | an unknown response changes nothing; a known one is answered exactly when the original service is still there, and its entry is closed |
| ServiceGraph.ServiceGraph.CleanupStaleRequests | msg/translation_node/src/service_graph.cpp:216-230 | erases exactly the entries received more than twenty seconds ago and counts each of them as timed out |
| ServiceGraph.ServiceGraph.InEveryRun | msg/translation_node/src/service_graph.cpp:182-230 | over any run, no request is forwarded or answered twice, answers go to the node the request came from, and forwarded requests are pending or closed in one way |
| ServiceGraph.LaterTransitive | msg/translation_node/src/service_graph.cpp:182-230 | over any run, closed requests, forwards and answers are never revised |
| SparseSlots.OneWayToSort | src/lib/parameters/DynamicSparseLayer.h:161-169 | slots with distinct keys can be sorted in only one way, whatever the sorting algorithm |
| SparseSlots.SortInserts | src/lib/parameters/DynamicSparseLayer.h:78-80 | appending and sorting represents the map with the new binding |
| SparseSlots.SortRemoves | src/lib/parameters/DynamicSparseLayer.h:133-137 | overwriting with the sentinel and sorting represents the map without the binding |
| SparseSlots.Size | src/lib/parameters/DynamicSparseLayer.h:145-148 | the number of used slots is the size of the map |
| SparseSlots.GetIndex | src/lib/parameters/DynamicSparseLayer.h:171-192 | binary search finds the key's slot, and reports absence only if no slot has it |
| SparseLayers.DynamicSparseLayer.Store | src/lib/parameters/DynamicSparseLayer.h:68-92 | binds the key, and fails, without effect, exactly when a new key finds no slot and no room to grow |
| SparseLayers.DynamicSparseLayer.Grow | src/lib/parameters/DynamicSparseLayer.h:194-239 | a larger array with the same bindings |
| SparseLayers.DynamicSparseLayer.Contains | src/lib/parameters/DynamicSparseLayer.h:94-98 | whether the key is bound |
| SparseLayers.DynamicSparseLayer.Get | src/lib/parameters/DynamicSparseLayer.h:113-125 | the bound value, or the parent's |
| SparseLayers.DynamicSparseLayer.Reset | src/lib/parameters/DynamicSparseLayer.h:127-138 | removes the key's binding and no other |
| SparseLayers.StaticSparseLayer.Store | src/lib/parameters/StaticSparseLayer.h:52-69 | binds the key; a full layer rejects a new key with its slots unchanged |
| SparseLayers.StaticSparseLayer.Get | src/lib/parameters/StaticSparseLayer.h:89-99 | the bound value, or the parent's |
| SparseLayers.StaticSparseLayer.Reset | src/lib/parameters/StaticSparseLayer.h:101-111 | removes the key's binding and no other |
| BitWords.CountsBits | src/include/structs/AtomicBitset.hpp:14-22 | the shifting loop counts exactly the set bits of a word |
| BitWords.StoreChange | src/include/structs/AtomicBitset.hpp:31-36 | setting or clearing a bit in its word adds or removes one position |
| BitWords.AtomicBitset.Count | src/include/structs/AtomicBitset.hpp:14-22 | the sum over all words is the size of the set |
| BitWords.AtomicBitset.Get | src/include/structs/AtomicBitset.hpp:26-29 | whether the position is in the set |
| BitWords.AtomicBitset.Set | src/include/structs/AtomicBitset.hpp:31-36 | adds or removes the position |
| LayeredParameters.OverlayElsewhere | src/lib/parameters/ParamLayer.h:42-73 | a change of one key in one layer is invisible for all other keys |
| LayeredParameters.OverlayFinds | src/lib/parameters/DynamicSparseLayer.h:113-125 | the first layer that binds the parameter decides, and the default if none does |
| LayeredParameters.GetBelow | src/lib/parameters/DynamicSparseLayer.h:113-125 | the binding of the first layer down the parents that has one, else the default, else zero beyond the defaults |
| LayeredParameters.LayerStack.LookupFinds | src/lib/parameters/ExhaustiveLayer.h:77-111 | a parameter that the cache does not own has the value of the first layer that binds it, else its default |
| LayeredParameters.ExhaustiveLayer.SizeOf | src/lib/parameters/ExhaustiveLayer.h:113-116 | the number of owned parameters |
| LayeredParameters.LayerStack.StoreBelow | src/lib/parameters/DynamicSparseLayer.h:68-92 | a store in a lower layer succeeds exactly as that layer alone would, changes that binding and makes only that parameter stale |
| LayeredParameters.LayerStack.ResetBelow | src/lib/parameters/DynamicSparseLayer.h:127-138 | a reset in a lower layer removes that binding and makes only that parameter stale |
| LayeredParameters.LayerStack.Refresh | src/lib/parameters/ExhaustiveLayer.h:100-111 | makes the parameter's cached value current again |
| LayeredParameters.LayerStack.Store | src/lib/parameters/ExhaustiveLayer.h:50-63 | takes ownership with the value, exactly for existing parameters, and stays coherent |
| LayeredParameters.LayerStack.Reset | src/lib/parameters/ExhaustiveLayer.h:89-98 | gives up ownership and takes the value from below |
| LayeredParameters.LayerStack.Get | src/lib/parameters/ExhaustiveLayer.h:77-87 | equals the uncached lookup unless the parameter is unowned and was not refreshed |
| Autosave.PacedUnlessEarly | src/lib/parameters/autosave.cpp:40-113 | from any state that keeps the pace, a schedule keeps it exactly if it is not early |
| Autosave.ParamAutosave.RequestCheck | src/lib/parameters/autosave.cpp:40-53 | passes exactly if the flag is clear and autosave enabled, with a delay that reaches two seconds after the last time stamp; counts the change |
| Autosave.ParamAutosave.RequestStore | src/lib/parameters/autosave.cpp:55 | sets the flag; what the flag announces is then on its way |
| Autosave.ParamAutosave.RequestSubmit | src/lib/parameters/autosave.cpp:56 | schedules the work unless some is pending or the work item is being cancelled; records a refusal, a schedule in another epoch than the check, and exactly the early ones |
| Autosave.ParamAutosave.Request | src/lib/parameters/autosave.cpp:40-57 | unless autosave is disabled, work is then pending exactly if it was already, or the flag was clear and the item is not being cancelled; early exactly if accepted between the start of a run and its time stamp, which no request is while all keep to their epochs |
| Autosave.ParamAutosave.EnableFlags | src/lib/parameters/autosave.cpp:61-65 | disabling clears the flag and gives up the changes so far; enabling again leaves a stuck flag stuck |
| Autosave.ParamAutosave.EnableCancel | src/lib/parameters/autosave.cpp:66 | cancels, which lasts until a running handler returns; a flag set in between is lost |
| Autosave.ParamAutosave.Enable | src/lib/parameters/autosave.cpp:59-68 | with nothing in between, disabling leaves the flag clear and nothing pending or lost |
| Autosave.ParamAutosave.Start | src/lib/parameters/autosave.cpp:33-38 | only pending work that is due starts, on an idle item |
| Autosave.ParamAutosave.DeferSubmit | src/lib/parameters/autosave.cpp:74-83 | while armed the attempt is put off by a second, and is then pending exactly if it was already or the item is not being cancelled |
| Autosave.ParamAutosave.Stamp | src/lib/parameters/autosave.cpp:85-94 | begins an attempt that covers all changes so far; unless a schedule was early, all attempts are two seconds apart and nothing is pending |
| Autosave.ParamAutosave.Finish | src/lib/parameters/autosave.cpp:96-112 | a failed attempt is retried, and given up only after four failures in a row |
| Autosave.ParamAutosave.RetryCheck | src/lib/parameters/autosave.cpp:100-103 | the handler's own request: the changes of the failed attempt stay on their way, or are given up because autosave is disabled |
| Autosave.ParamAutosave.Return | src/lib/parameters/autosave.cpp:70-113 | ends a cancellation and leaves what is pending |
| Autosave.ParamAutosave.SpacedUnlessEarly | src/lib/parameters/autosave.cpp:40-113 | in every run attempts are two seconds apart unless a schedule was early, and none is while requests keep to their epochs |
| Autosave.EarlyBreaks | src/lib/parameters/autosave.cpp:40-113 | the first early schedule of any run can be continued, with no other early one, to attempts less than two seconds apart |
| Autosave.ParamAutosave.BetweenRuns | src/lib/parameters/autosave.cpp:40-113 | with no run, request or disabling in progress, autosave is stuck exactly if what the flag announces was refused or cancelled; otherwise an attempt is pending for every change not yet saved or given up |
| Autosave.StuckRun | src/lib/parameters/autosave.cpp:40-113 | a run in which disabling, enabling and requesting during a save leaves the flag set with nothing scheduled, and the next request does nothing |
| Autosave.StuckByCancel | src/lib/parameters/autosave.cpp:40-68 | the same with no save under way, when a request sets the flag between the two halves of disabling |
| Autosave.StaleRequest | src/lib/parameters/autosave.cpp:40-94 | a run in which a request schedules with the delay it computed before another save: two attempts 400 ms apart |
| Autosave.EarlyAtomicRequest | src/lib/parameters/autosave.cpp:40-94 | a run in which both delays fit, but the second request is scheduled between a start and its time stamp: two attempts 300 ms apart |
| BlockingQueue.BlockingQueue.PushStore | src/include/structs/BlockingQueue.hpp:16-22 | stores the item as the next one of the sequence without overwriting one not yet popped |
| BlockingQueue.BlockingQueue.PopLoad | src/include/structs/BlockingQueue.hpp:24-31 | loads the next item in the order of the pushes |
| BlockingQueue.SlotsAccounted | src/include/structs/BlockingQueue.hpp:10-31 | both counts and the operations in flight add up to N, and what was popped is a prefix of what was pushed |
| BlockingQueue.NeverSameSlot | src/include/structs/BlockingQueue.hpp:19-27 | a due store and a due load go to different slots |
| BlockingQueue.NoDeadlock | src/include/structs/BlockingQueue.hpp:16-31 | the two sides never wait for each other, and one waits only on a full or an empty queue |
| IntrusiveLists.IntrusiveQueue.Push | src/include/structs/IntrusiveQueue.hpp:59-75 | appends an unlinked node, and leaves the queue alone for one that is queued |
| IntrusiveLists.IntrusiveQueue.Pop | src/include/structs/IntrusiveQueue.hpp:77-96 | takes the oldest node, with its link cleared |
| IntrusiveLists.IntrusiveQueue.Remove | src/include/structs/IntrusiveQueue.hpp:98-129 | takes out exactly this node, with its link cleared, and reports whether it was there |
| IntrusiveLists.IntrusiveQueue.Size | src/include/structs/IntrusiveQueue.hpp:48-57 | the number of nodes |
| IntrusiveLists.IntrusiveSortedList.Add | src/include/structs/IntrusiveSortedList.hpp:59-91 | inserts before the first node that is not smaller, and keeps the order |
| IntrusiveLists.IntrusiveSortedList.Remove | src/include/structs/IntrusiveSortedList.hpp:93-128 | takes out exactly this node, with its link cleared |
| IntrusiveLists.IntrusiveSortedList.Size | src/include/structs/IntrusiveSortedList.hpp:152-161 | the number of nodes |
| ConsoleBuffer.WriteOne | src/lib/console_buffer/console_buffer.cpp:109-116 | writing a byte moves the window over the stream on by one |
| ConsoleBuffer.ConsoleBuffer.Write | src/lib/console_buffer/console_buffer.cpp:105-119 | extends the stream, of which the buffer keeps the last SIZE - 1 bytes |
| ConsoleBuffer.ConsoleBuffer.Size | src/lib/console_buffer/console_buffer.cpp:121-135 | the length of what is kept |
| ConsoleBuffer.ConsoleBuffer.Read | src/lib/console_buffer/console_buffer.cpp:137-182 | a reader that was not overtaken gets the next bytes of the stream and an offset that continues there |
| ConsoleBuffer.ConsoleBuffer.Print | src/lib/console_buffer/console_buffer.cpp:77-96 | reading in chunks of any positive size gives the whole content once |
| Crc.Crc16Add | src/lib/crc/crc.c:89-105 | the bit loop is eight rounds of the register |
| Crc.Crc16Signature | src/lib/crc/crc.c:124-133 | the check of a message is the fold of its bytes |
| Crc.FoldLinear16 | src/lib/crc/crc.c:124-133 | the check of the XOR of two messages is the XOR of their checks |
| Crc.FoldConcat16 | src/lib/crc/crc.c:124-133 | the check of a concatenation chains |
| Crc.FoldIsFeed | src/lib/crc/crc.c:89-133 | byte-wise and bit-wise processing agree |
| Crc.BurstDetected | src/lib/crc/crc.c:124-133 | messages of equal length that differ only within 16 consecutive bits have different checks |
| Crc.SeventeenBitsUndetected | src/lib/crc/crc.c:124-133 | a difference within 17 bits that goes unnoticed in every three-byte message |
| Crc.Crc32Signature | src/lib/crc/crc.c:151-170 | the loops with the negated mask compute the fold of the rounds |
| Crc.MatchesTable | src/lib/crc/crc.c:151-170 | for every accumulator and message, the table-driven update of section 8 of RFC 1952 without its inversions |
| Crc.FoldConcat32 | src/lib/crc/crc.c:151-170 | the check of a concatenation chains |

## Left out

- HeatshrinkEncoder.Encode: for `lookahead_size <= window_size <= 14` only; beyond that the 16-bit index entries wrap, or a block makes no progress.
- HeatshrinkEncoder.Encoder.Poll: assumes room for nine bits for each byte of the stream, which the encoding loop provides; a smaller buffer makes the original spin. Null arguments are not modelled.
- HeatshrinkEncoder.Encoder.FindLongestMatch: the byte just past the match is not read when the search stops at full length; the original reads it there without using it.
- The heatshrink decoder in C is not part of this model; decoding is a specification of the bit grammar.
- FormatPipeline.DefinitionTable.Generate: the interpreter's recursion limit is the parameter `depth`; files, JSON, escaping and the generated C++ text are left out.
- FormatRecords.ReadRecordBytes: models the order and layout in which the firmware reads records, not its bounded buffers and incremental states.
- MatrixInverse.InvLU: arithmetic is exact, so rounding, infinities and NaN do not occur and the finiteness check always passes; FLT_EPSILON is 2^-23.
- Cholesky.Decompose: the square root is a parameter with a positive value whose square is its argument; the float accumulator of the sums is exact as well.
- PubSubGraph.PubSubGraph.UpdateCurrentTopics: topics come with their parsed identifiers, ROS endpoints are fresh handles, and warnings, topic information and the publications for the largest message are left out.
- ServiceGraph.ServiceGraph.SetEndpoints: clients and services may change in any way between events; how `updateCurrentServices` decides it is left out.
- ServiceGraph.ServiceGraph.OnNewRequest: the sequence number that the client returns is a parameter; the pending requests of all nodes are one map whose keys hold the node.
- SparseLayers.DynamicSparseLayer.Store: calls do not overlap, so the unlocked window during growth is not modelled; keys are below 0xFFFF; qsort is known only as a sorted permutation.
- SparseLayers.StaticSparseLayer.Store: keys are below 0xFFFF, the key of an unused slot, which the original does not refuse.
- LayeredParameters.LayerStack.StoreBelow: the same.
- SparseLayers.DynamicSparseLayer.Get: the parent's answer is passed in, and LayeredParameters.GetBelow composes the layers.
- LayeredParameters.LayerStack.Refresh: for existing parameters only; the original has no guard here, so for a parameter from PARAM_COUNT on it would write past its array, where store, get and reset check.
- LayeredParameters.ExhaustiveLayer.Refresh: the same.
- BitWords.AtomicBitset.Set: words are natural numbers below 2^32, and setting a bit is addition when it was clear.
- Autosave.ParamAutosave.RequestCheck: reading both flags and the clock is one step, and so are setting and reading the flags in `enable`, its cancellation, and each of the steps of `run`; the clock never goes back.
- The work queue is modelled by the rules of `k_work_schedule_for_queue` and `k_work_cancel_delayable` in Zephyr's kernel: an item is scheduled only when it is idle or merely running, and one cancelled while it runs stays so until its handler returns.
- BlockingQueue.BlockingQueue.PushTake: one producer and one consumer, each semaphore, data and index access a step of its own; with more on one side the index is not protected.
- IntrusiveLists.IntrusiveSortedList.Add: the node must be unlinked, as the original assumes; elements are compared by an integer key.
- ConsoleBuffer.ConsoleBuffer.Read: says nothing about the bytes that an overtaken reader gets; the bytes are returned instead of being copied into the caller's memory.
- Crc: the 64-bit check is left out as a relative of the other two.
- Matrix exponentials, the dataman client and cache, geodesy and attitude code, message field copies, and board, USB and flash code are left out.
