# VAST in Dafny

A model of the parts of VAST whose correctness is hard to see from the code, with proofs that
they do what they are for. It covers six areas.

- **Compressed bitmaps.** `EwahBitmap` and `WahBitmap` are classes that update their words in
  place, as the originals do. A ghost field holds the bit sequence that a bitmap stands for.
  For EWAH the words, the length and the place of the last marker are a function of that bit
  sequence (`EwahCode.Blocks`), so the representation is canonical whichever operations led to
  it. For WAH they are a function of the bit sequence and of how many bits are in the last
  word (`WahGroups.Code`), which depends on the history. Words are 64 bits, least significant
  bit first.
- **Query queue.** `QueryQueue` is a class with the map of queries and the two lists of
  partitions. Its methods are tied to functions on queue values (`QueueCode`), these are the
  steps of a protocol that also records what was handed out (`QueueProtocol.Step`), and the
  theorems are about every run of that protocol.
- **Addresses.** Pseudonymization works on 128 bits, most significant first, for an arbitrary
  block cipher function. Subnets are networks with a prefix length.
- **Expressions.** Normalization, pruning and evaluation. Each pass is a recursive function with
  a loop method that computes it. The meaning of an expression is given relative to an
  interpretation of its predicates (`Expressions.Holds`); evaluation fixes the interpretation
  row by row (`Evaluation.RowMeaning`), and `OperatorMeanings` says what the operators mean for
  the values of a row, also for predicates with the value on the left.
- **Record types.** Walks with explicit stacks over nested records, offsets and dotted keys.
- **Column rewriting.** Transforming and selecting the columns of a batch with one cursor over
  sorted offsets. A batch is a list of fields and a list of arrays of the same shape.

Where a property that one would expect does not hold, there is an input that shows it and the
condition under which it does, exact in all cases but that of merged lookups.

- Comparing the words of WAH bitmaps does not decide equality of the bits
  (`WahHistories.ZerosDiffer`); it does exactly if both or neither of the histories end with a
  run that leaves an empty word (`WahHistories.EqualExactly`).
- Normalization changes the answer of rows with null cells (`QueryResults.NullRowChanges`) and
  the meaning of negated nils (`NormalForms.NegatedNil`). What the normal form means is known
  for every expression and interpretation (`NormalForms.NormalizeReads`). It never adds rows
  (`QueryResults.NormalOnRow`), and the exact conditions are `QueryResults.RowKeptExactly` for
  rows and `NormalForms.NilsMatterExactly` for nils.
- A normal form need not be stable: normalizing it again can change it
  (`NormalFixpoints.OnceIsNotEnough`). The stable expressions are known exactly
  (`NormalFixpoints.NormalExactly`), and repeated normalization ends in one, because every
  round makes the expression smaller (`NormalFixpoints.NormalizeAgain`).
- The priority stored with a queue entry is not always that of its queries: a removed query
  leaves its priority behind (`QueuePriorities.PriorityLeftBehind`). The difference is exactly
  what was removed since the entry was made or set aside (`QueuePriorities.StoredPriority`).
- Pruning can merge lookups that stand in no common connective
  (`PruneResults.MergedAcross`), because hoisting between rounds brings them together. It does
  not if the expression is hoisted to begin with (`HoistedPruning.MergedInOne`). Always, what it
  merges is looked up twice in the whole expression (`PruneResults.PrunedMerges`), and in one
  connective in the round that merges it (`PruneResults.OnceMerges`).
- Pseudonyms of an IPv6 and an IPv4 address can collide (`Addresses.Collision`), except under
  exactly one condition on the key (`Addresses.InjectiveExactly`).

`dafny verify dfyconfig.toml` checks the project.

## Model

| member | source | states |
|---|---|---|
| Ewah.EwahBitmap.Filled | libvast/src/ewah_bitmap.cpp:15-17 | A bitmap made of n equal bits is the canonical one for that bit sequence. |
| Ewah.EwahBitmap.AppendBit | libvast/src/ewah_bitmap.cpp:35-48 | Appends the bit; words, length and last marker stay those determined by the bits. |
| Ewah.EwahBitmap.AppendBits | libvast/src/ewah_bitmap.cpp:50-124 | Appends n equal bits, for every n, also past full markers; the result is the canonical one, so the same as after n single bits. |
| Ewah.EwahBitmap.AppendCleanBlocks | libvast/src/ewah_bitmap.cpp:89-118 | Stuffing clean words into the last marker and into new markers gives what adding the words one by one gives. |
| Ewah.EwahBitmap.AppendBlock | libvast/src/ewah_bitmap.cpp:126-152 | Appends the low k bits of a block, across a word boundary too; the result is the canonical one. |
| Ewah.EwahBitmap.Flip | libvast/src/ewah_bitmap.cpp:154-176 | Complements every bit in place, and keeps unused bits zero and the representation canonical. |
| Ewah.EwahBitmap.IntegrateLastBlock | libvast/src/ewah_bitmap.cpp:178-220 | Turns the last literal into a clean word of a marker, an empty marker's type or a dirty word, as the segment code prescribes. |
| Ewah.EwahBitmap.BumpDirtyCount | libvast/src/ewah_bitmap.cpp:222-239 | Counts the last literal as dirty; at the maximum it puts a new marker in front of it. |
| Ewah.EwahBitmap.Equals | libvast/src/ewah_bitmap.cpp:241-245 | Comparing words and lengths is true exactly if the bit sequences are equal. |
| EwahCode.LongRunBlocks | libvast/src/ewah_bitmap.cpp:104-118 | A run of clean words behind a closed marker is full markers and one marker for the rest, and the last of them is the last marker. |
| EwahCode.AbsorbSome | libvast/src/ewah_bitmap.cpp:89-103 | A marker that can absorb clean words takes what fits under its maximum and leaves the rest to new markers. |
| EwahCode.ExtendByRun | libvast/src/ewah_bitmap.cpp:77-124 | A run behind whole words becomes so many clean words and a last word that is never integrated. |
| EwahMeaning.Meaning | libvast/src/ewah_bitmap.cpp:35-239 | Decoding the words of a bit sequence gives the bit sequence; the last block is its last word with unused bits zero. |
| EwahMeaning.Chain | libvast/src/ewah_bitmap.cpp:178-239 | Stepping from marker to marker by one plus the dirty count lands exactly on the last literal, with all counters within their maxima. |
| EwahMeaning.BlocksFlip | libvast/src/ewah_bitmap.cpp:154-176 | Flipping marker types and dirty words, and leaving the last marker where it is, is the representation of the complement. |
| EwahWords.MarkerFields | libvast/include/vast/ewah_bitmap.hpp:20-68 | Type and counters packed into a marker word read back unchanged up to their maxima. |
| EwahWords.RawInjective | libvast/include/vast/ewah_bitmap.hpp:20-68 | Well-formed chains with equal raw words have equal blocks: a literal is never confused with a marker. |
| EwahWords.EqualityIsLogical | libvast/src/ewah_bitmap.cpp:241-245 | Raw words and lengths of two bit sequences are equal iff the sequences are, and then the last markers are at the same place. |
| EwahHistories.Replay | libvast/src/ewah_bitmap.cpp:35-176 | Every run of operations on a new bitmap refines the same run on a plain bit sequence. |
| EwahHistories.Canonical | libvast/src/ewah_bitmap.cpp:35-245 | For any two runs of operations, equal words and lengths mean equal bits and conversely, and every run ends in the words that appending its bits one by one gives. |
| EwahRange.EwahBitmapRange.Scan | libvast/src/ewah_bitmap.cpp:279-318 | The next run continues the bits already seen, past markers without clean words and through dirty words. |
| EwahRange.EwahBitmapRange.ScanClean | libvast/src/ewah_bitmap.cpp:299-316 | Adjacent clean markers of one type are merged into one run of the right length. |
| EwahRange.Iterate | libvast/src/ewah_bitmap.cpp:264-318 | Iterating ends, and the runs together are the bit sequence. |
| Wah.WahBitmap.MergeActiveWord | libvast/src/wah_bitmap.cpp:134-174 | Merging a full active word into fills keeps the bits and opens an empty active word. |
| Wah.WahBitmap.AppendBit | libvast/src/wah_bitmap.cpp:39-48 | Appends the bit, keeps the complete words packed and leaves at least one bit in the last word. |
| Wah.WahBitmap.AppendBits | libvast/src/wah_bitmap.cpp:50-97 | Appends n equal bits, with fills that overflow included, keeps the complete words packed, and leaves the last word empty iff the run outgrows it and ends on a word boundary. |
| Wah.WahBitmap.AppendBlock | libvast/src/wah_bitmap.cpp:99-120 | Appends the low k bits of a block, keeps the complete words packed and leaves at least one bit in the last word. |
| Wah.WahBitmap.Flip | libvast/src/wah_bitmap.cpp:122-132 | Complements every bit in place, and keeps the words packed and unused bits zero. |
| Wah.WahBitmap.Equals | libvast/src/wah_bitmap.cpp:176-178 | Words and lengths are equal iff the bits are equal and equally many of them are in the last word; the bits alone decide off word boundaries and below two words. |
| Wah.WahBitmap.Words | libvast/src/wah_bitmap.cpp:39-174 | The words are the merged fills and literals of the complete groups and the last word, determined by the bits and the number of bits in the last word. |
| WahGroups.CodeInjective | libvast/src/wah_bitmap.cpp:176-178 | Codes and lengths of two bit sequences are equal iff the sequences and their splits are. |
| WahGroups.GroupsFlip | libvast/src/wah_bitmap.cpp:122-132 | Flipping fill types and literals of the groups gives the groups of the complement. |
| WahHistories.EqualExactly | libvast/src/wah_bitmap.cpp:39-178 | Two histories give equal words and lengths iff they give the same bits and both or neither of them ends in an empty word, which the operations tell. |
| WahHistories.EqualMostly | libvast/src/wah_bitmap.cpp:39-178 | For lengths off a word boundary or below two words, equal words and lengths are the same as equal bits. |
| WahHistories.ZerosDiffer | libvast/src/wah_bitmap.cpp:39-97 | 126 zeros appended at once and bit by bit are the same bits in different words. |
| WahCode.FillFields | libvast/include/vast/wah_bitmap.hpp:20-60 | A fill word reads back its type and count and stands for that many literals. |
| WahRange.Iterate | libvast/src/wah_bitmap.cpp:196-225 | Iterating ends, and the runs together are the bit sequence. |
| WahHistories.Replay | libvast/src/wah_bitmap.cpp:39-174 | Every run of operations on a new bitmap refines the same run on a plain bit sequence, and ends in the code of the bits, split as the operations say. |
| QueryQueues.QueryQueue.Insert | libvast/src/query_queue.cpp:72-119 | Refuses exactly the bad inserts and changes nothing then; otherwise places every candidate in the entry of its partition or a new one and sorts by priority. |
| QueryQueues.QueryQueue.Activate | libvast/src/query_queue.cpp:121-141 | Grants credit and moves to the active list exactly the inactive entries of the query; fails exactly for unknown queries. |
| QueryQueues.QueryQueue.RemoveQuery | libvast/src/query_queue.cpp:143-167 | Takes the query out of all entries and drops entries that become empty; fails exactly for unknown queries. |
| QueryQueues.QueryQueue.MarkPartitionErased | libvast/src/query_queue.cpp:169-184 | Marks the entry of the partition in whichever list it is, and says whether there was one. |
| QueryQueues.QueryQueue.TakeNext | libvast/src/query_queue.cpp:186-237 | Pops entries until one has a query with credit, sets the queries without credit aside and charges the others. |
| QueryQueues.QueryQueue.HandleCompletion | libvast/src/query_queue.cpp:239-258 | Counts a completion, erases a finished query and returns the client to tell. |
| QueryQueues.QueryQueue.IsReachable | libvast/src/query_queue.cpp:46-56 | True exactly if an entry of either list names the query. |
| QueueRefinement.Perform | libvast/src/query_queue.cpp:72-258 | Every permitted call on a queue object is a step of the protocol. |
| QueueSteps.InsertStructure | libvast/src/query_queue.cpp:72-119 | Inserting makes exactly the candidates pending for the new query and leaves the pending work of all others alone. |
| QueueSteps.ActivateStructure | libvast/src/query_queue.cpp:121-141 | Activating moves entries between the lists and neither adds nor loses one. |
| QueueSteps.NextStructure | libvast/src/query_queue.cpp:186-237 | What is handed out was pending for exactly the queries it names, all with credit, and is pending for them no more; nothing else changes. |
| QueueSteps.NextChoice | libvast/src/query_queue.cpp:186-237 | Next finds nothing iff no entry has a query with credit, and otherwise schedules an entry of highest stored priority. |
| QueueSteps.RemovePending | libvast/src/query_queue.cpp:143-167 | Removing a query takes its pending work away and nobody else's. |
| QueueSteps.EraseStructure | libvast/src/query_queue.cpp:169-184 | Marking a partition erased changes no pending work and reports true iff the partition is queued. |
| QueueProtocol.StepKeeps | libvast/src/query_queue.cpp:72-258 | Every step keeps the invariant: unique partitions, live queries, sorted active list, no credit in the inactive list, balanced books. |
| QueueProtocol.Conservation | libvast/src/query_queue.cpp:72-258 | In every reachable state the candidates of a live query are the disjoint union of pending and handed out, and completed, scheduled, requested and the number in flight agree with it. |
| QueueProtocol.QueuedOnce | libvast/src/query_queue.cpp:72-119 | In every reachable state each partition occurs once across both lists, and entries name live queries only. |
| QueueProtocol.NeverTwice | libvast/src/query_queue.cpp:186-237 | In no run is a query handed the same partition twice. |
| QueueProtocol.NoLostWakeUp | libvast/src/query_queue.cpp:99-237 | In every reachable state, next comes back empty iff no pending entry has credit, and otherwise takes one of the highest stored priority. |
| QueueProtocol.Drained | libvast/src/query_queue.cpp:186-237 | When next comes back empty, every live query was handed all its candidates or all it asked for. |
| QueueProtocol.DoneMeansIdle | libvast/src/query_queue.cpp:239-258 | The client is told "done" exactly when nothing of its query is in flight and all it asked for was handed out. |
| QueueProtocol.ErasedMeansFinished | libvast/src/query_queue.cpp:239-258 | A completion erases its query exactly when all candidates are handed out and completed; the query is unreachable then. |
| QueueStates.StateStep | libvast/src/query_queue.cpp:72-258 | A step changes the state of a query that stays live only as asked: activating adds to what is requested, handing out counts as scheduled, completing as completed. |
| QueueStates.GrantedExactly | libvast/src/query_queue.cpp:72-258 | In every run, what a live query requests is what it was inserted with plus all that was activated since; its priority, client and number of candidates are as inserted. |
| QueueStates.ActivationWakes | libvast/src/query_queue.cpp:121-237 | Right after a query with pending work is activated for at least one partition, next hands something out. |
| QueuePriorities.StoredPriority | libvast/src/query_queue.cpp:72-258 | In every reachable state the stored priority of an entry is the sum of the priorities of its queries and of those removed since it was made or set aside, so never less than the former. |
| QueuePriorities.Origin | libvast/src/query_queue.cpp:72-258 | Every entry after a step comes from one before it, with what the step adds to or clears of the left-over priority, or is new and has none. |
| QueuePriorities.HandedOut | libvast/src/query_queue.cpp:186-237 | In every run, what is handed out and what is set aside carry the schema and the erased mark of the entry they come from. |
| QueuePriorities.MarkedExactly | libvast/src/query_queue.cpp:169-184 | In every reachable state an entry is marked as erased iff its partition was marked since the entry was made. |
| QueuePriorities.PriorityLeftBehind | libvast/src/query_queue.cpp:143-167 | After its query of priority 5 is removed, an entry with a query of priority 1 is scheduled before one with a query of priority 3. |
| CryptoPan.PrefixPreserving | libvast/src/ip.cpp:49-93 | Two bit sequences share their first k bits iff their encryptions do, for any pad function. |
| CryptoPan.DecryptEncrypt | libvast/src/ip.cpp:49-93 | Encryption can be undone bit by bit. |
| CryptoPan.EncryptDecrypt | libvast/src/ip.cpp:49-93 | Every bit sequence is an encryption. |
| Addresses.GenerateOneTimePad | libvast/src/ip.cpp:66-93 | The byte-wise loop with masks computes the pad whose bit j is the first output bit of the cipher on j original bits followed by the padding from bit j on. |
| Addresses.Pseudonymize | libvast/src/ip.cpp:98-105 | The IPv4 prefix is left alone, and every other bit is the original one, inverted iff the first output bit of the cipher is set on the original bits before it followed by padding. |
| Addresses.PseudonymBits | libvast/src/ip.cpp:49-105 | The same for the function that the method computes and the other laws are about. |
| Addresses.KeepsV4 | libvast/src/ip.cpp:98-109 | IPv4 stays IPv4. |
| Addresses.SharedPrefix | libvast/src/ip.cpp:98-105 | Two addresses of one family share their first k bits iff their pseudonyms do, for every k and every cipher. |
| Addresses.InjectivePerFamily | libvast/src/ip.cpp:98-105 | Within a family, different addresses have different pseudonyms. |
| Addresses.OntoV4 | libvast/src/ip.cpp:98-105 | Every IPv4 address is the pseudonym of an IPv4 address. |
| Addresses.V6BecomesV4 | libvast/src/ip.cpp:98-109 | An IPv6 address becomes an IPv4 pseudonym iff its first 96 bits are one particular prefix of the key. |
| Addresses.Collision | libvast/src/ip.cpp:98-109 | Every key whose leaky prefix is not the IPv4 one gives an IPv6 and an IPv4 address the same pseudonym. |
| Addresses.InjectiveExactly | libvast/src/ip.cpp:98-109 | Pseudonyms tell all addresses of both families apart iff the leaky prefix is the IPv4 one. |
| Subnets.Ip.Mask | libvast/src/ip.cpp:136-149 | Clears all but the top bits, word by word, and refuses more than 128. |
| Subnets.Ip.Compare | libvast/src/ip.cpp:173-182 | The comparison by bytes and a masked last byte is true iff the first k bits agree. |
| Subnets.Subnet.constructor | libvast/src/subnet.cpp:22-28 | A length that does not fit the family gives the empty subnet; otherwise the network is masked to the length. |
| Subnets.Subnet.Initialize | libvast/src/subnet.cpp:46-56 | Succeeds iff the length fits the family; then the length counts from the IPv6 start and the network is masked. |
| Subnets.Subnet.Contains | libvast/src/subnet.cpp:30-32 | An address is contained iff masking it gives the network. |
| Subnets.Subnet.ContainsSubnet | libvast/src/subnet.cpp:34-36 | A subnet is contained iff every address of it is. |
| Subnets.Subnet.Length | libvast/src/subnet.cpp:42-44 | Network and length rebuild the same subnet. |
| Subnets.InIffMasked | libvast/src/subnet.cpp:30-32 | Sharing the prefix and masking to the network are the same. |
| Subnets.Inclusion | libvast/src/subnet.cpp:34-36 | Comparing lengths and network addresses decides inclusion of the address sets. |
| Subnets.Rebuild | libvast/src/subnet.cpp:22-56 | Every subnet that a constructor can make is rebuilt from its network and length. |
| Expressions.OperatorLaws | libvast/src/operator.cpp:53-102 | Negating and flipping are involutions, negating changes every operator, and the two commute. |
| OperatorMeanings.FlipIsConverse | libvast/src/operator.cpp:79-102 | Every flipped operator says of two values what the operator says of them the other way round, if equality is symmetric and the order reverses. |
| Normalizing.HoistExpression | libvast/src/expression_visitors.cpp:78-110 | The loops over operands compute the hoisted expression. |
| Normalizing.AlignExpression | libvast/src/expression_visitors.cpp:112-142 | The loops over operands compute the aligned expression. |
| Normalizing.DenegateExpression | libvast/src/expression_visitors.cpp:144-179 | The loops over operands compute the expression with negations pushed into operators. |
| Normalizing.DeduplicateExpression | libvast/src/expression_visitors.cpp:181-211 | The loops over operands compute the deduplicated expression. |
| NormalForms.DeduplicateDistinct | libvast/src/expression_visitors.cpp:181-211 | A deduplicated expression has no connective with an operand twice, at any depth. |
| Normalizing.NormalizeExpression | libvast/src/expression.cpp:185-192 | The passes one after another compute the normal form. |
| NormalForms.HoistHolds | libvast/src/expression_visitors.cpp:78-110 | Hoisting keeps the meaning under every interpretation. |
| NormalForms.DeduplicateHolds | libvast/src/expression_visitors.cpp:181-211 | Deduplicating keeps the meaning of expressions without negations. |
| NormalForms.NormalizeShape | libvast/include/vast/expression.hpp:363-369 | A normal form has no conjunction or disjunction with a single operand, its extractors on the left, and no negation. |
| NormalFixpoints.NormalExactly | libvast/src/expression.cpp:185-192 | Normalizing leaves an expression as it is iff it has no negation, extractors on the left, and connectives with no or several operands, all different and none of the same kind, at every depth. |
| NormalFixpoints.NormalizeAgain | libvast/src/expression.cpp:185-192 | Normalizing a normal form again makes it smaller, or there is nothing left to do. |
| NormalFixpoints.OnceIsNotEnough | libvast/src/expression.cpp:185-192 | The normal form of x and (x or x) is x and x, and the normal form of that is x. |
| NormalFixpoints.DeduplicateSize | libvast/src/expression_visitors.cpp:181-211 | Deduplicating makes an expression strictly smaller or leaves it as it is. |
| Readings.HoistReads | libvast/src/expression_visitors.cpp:78-110 | Hoisting keeps every reading of an expression, also one that treats atoms and nils under negations differently. |
| Readings.DenegateReads | libvast/src/expression_visitors.cpp:112-179 | Aligning and denegating turn the normal reading of any expression into its plain meaning. |
| NormalForms.NormalizeReads | libvast/src/expression.cpp:185-192 | For every expression and interpretation, the normal form holds iff the expression does in the normal reading: atoms aligned, negated atoms with the opposite operator, negated nils false. |
| NormalForms.NilsMatterExactly | libvast/src/expression.cpp:185-192 | With predicates that can be flipped and negated, the meaning is kept iff reading negated nils as false does not change it. |
| NormalForms.NormalizeStrengthens | libvast/src/expression.cpp:185-192 | Where no predicate holds together with its negation, what satisfies the normal form satisfies the expression. |
| NormalForms.NormalizeHolds | libvast/src/expression.cpp:185-192 | Normalization keeps the meaning of every expression whose predicates can be flipped and negated and that negates no nil. |
| NormalForms.MeaningKeptExactly | libvast/src/expression.cpp:185-192 | Over any set of predicates, an interpretation gives all expressions without negated nil the meaning of their normal forms iff every predicate of the set can be flipped and negated under it. |
| NormalForms.HarmlessNegatedNil | libvast/src/expression.cpp:185-192 | There is an expression with a negated nil whose meaning is kept. |
| NormalForms.NegatedNil | libvast/src/expression_visitors.cpp:144-179 | A negated nil holds and its normal form does not. |
| Pruning.RunPruner | libvast/src/prune.cpp:30-71 | The loop with a memo into its own result replaces the first lookup of a value when the value occurs again. |
| Pruning.Prune | libvast/src/prune.cpp:77-84 | The loop ends, with what the rounds of pruning and hoisting end in. |
| Pruning.PruneSize | libvast/src/prune.cpp:13-71 | Pruning makes an expression strictly smaller or leaves it as it is. |
| Sizes.HoistSize | libvast/src/expression_visitors.cpp:78-110 | Hoisting makes an expression strictly smaller or leaves it as it is. |
| Pruning.PruneWeakens | libvast/src/prune.cpp:13-71 | Without negations, what satisfies an expression satisfies the pruned one, if prunable fields imply the lookup in all strings. |
| Pruning.PruneKeeps | libvast/src/prune.cpp:13-71 | Pruning keeps the meaning, negations or not, if prunable fields mean the same as the lookup in all strings. |
| Pruning.PrunedEnd | libvast/src/prune.cpp:77-84 | The result is a fixpoint of the pruner, implied by the input as one round is. |
| PruneResults.PruneLeaves | libvast/src/prune.cpp:13-71 | One round leaves an expression as it is iff no connective, at any depth, has two prunable operands with the same operator and value. |
| PruneResults.NothingLeftToPrune | libvast/src/prune.cpp:77-84 | After pruning no connective, at any depth, has two such operands, and only expressions without them are left as they are. |
| PruneResults.OnceMerges | libvast/src/prune.cpp:30-71 | A predicate that one round adds looks in all strings for what some connective looked up twice. |
| PruneResults.PrunedMerges | libvast/src/prune.cpp:77-84 | A predicate that pruning adds looks in all strings for what the expression looks up at least twice, and no value is looked up more often than before. |
| PruneResults.MergedAcross | libvast/src/prune.cpp:77-84 | Pruning merges two lookups of x, of which one stands in a nested disjunction, once two other lookups are merged. |
| HoistedPruning.MergedInOne | libvast/src/prune.cpp:77-84 | In an expression that hoisting leaves as it is, a predicate that pruning adds looks in all strings for what one connective looks up twice. |
| HoistedPruning.OnceNoTwins | libvast/src/prune.cpp:13-71 | After one round no connective, at any depth, has two prunable operands with the same operator and value. |
| Evaluation.EvaluateCells | libvast/src/evaluate.cpp:199-220 | Selects, among the selected rows, those with a value that compares as asked. |
| Evaluation.EvaluateNil | libvast/src/evaluate.cpp:222-278 | Selects, among the selected rows, the null ones or the others. |
| Evaluation.EvaluatePattern | libvast/src/evaluate.cpp:280-313 | Selects, among the selected rows, the text that matches or does not. |
| Evaluation.EvaluateConjunction | libvast/src/evaluate.cpp:479-486 | Narrowing the selection, with an early end, selects the rows that satisfy all operands. |
| Evaluation.EvaluateDisjunction | libvast/src/evaluate.cpp:487-495 | Asking operands about unmatched rows only, with an early end, selects the rows that satisfy one. |
| Evaluation.EvaluateExpression | libvast/src/evaluate.cpp:465-504 | The result is the selected rows that satisfy the expression, always within the selection, which makes XOR a negation. |
| Evaluation.Select | libvast/src/evaluate.cpp:505-519 | Exactly the hinted rows of the slice are selected, or all without hints. |
| Evaluation.Evaluate | libvast/src/evaluate.cpp:410-525 | Bit i is set iff row i is in the slice, hinted, and satisfies the expression. |
| OperatorMeanings.EvaluateOne | libvast/src/evaluate.cpp:36-197 | For a single predicate the bit of an asked row is set iff the two values compare as the operator says: by equality, by membership in either direction, or by any ranks that agree with the order; a null cell only equals nil, and values without an order satisfy no ordering. |
| QueryResults.ComplementExactly | libvast/src/evaluate.cpp:36-389 | On no row does a bound predicate hold together with its negation, and negating the operator complements it iff the row decides it: it has a value, ordered with the other one for an ordering, or the comparison is whether it is null. |
| QueryResults.RowKeptExactly | libvast/src/evaluate.cpp:199-389 | A row keeps its answer for all expressions over some bound predicates, negated nils aside, iff it decides each of them. |
| QueryResults.NormalOnRow | libvast/src/evaluate.cpp:410-525 | On every row the normal form of a bound expression holds iff the expression does in the normal reading, and only if it does in the plain one. |
| QueryResults.NormalOnDecidedRow | libvast/src/evaluate.cpp:410-525 | On a row that decides its predicates, an expression keeps its answer iff reading negated nils as false does not change it. |
| QueryResults.EvaluateBoth | libvast/src/evaluate.cpp:410-525 | The bits of the normal form are the asked rows of the normal reading, a subset of the bits of the expression, and the same bits on rows that decide all predicates if no nil is negated. |
| QueryResults.NullRowChanges | libvast/src/evaluate.cpp:199-220 | A null cell satisfies a negated comparison and not the normal form of it. |
| OperatorMeanings.AlignKeepsRow | libvast/src/expression_visitors.cpp:112-142 | Putting extractors on the left keeps the answer of every row, where a value on the left is compared with the cell in this order. |
| OperatorMeanings.NormalOfEither | libvast/src/expression.cpp:185-192 | With values on either side, the normal form holds on a row only if the expression does, and iff it does on rows that decide the aligned predicates if no nil is negated. |
| OperatorMeanings.EvaluateNormalized | libvast/src/evaluate.cpp:410-525 | An expression with values on either side can be evaluated once normalized; the bits are asked rows that satisfy it, and all of them on rows that decide its aligned predicates if no nil is negated. |
| Offsets.CompareLess | libvast/src/offset.cpp:17-33 | Comparing at the first mismatch decides the lexicographic order, and equality. |
| Offsets.LessTransitive | libvast/src/offset.cpp:17-33 | The order is transitive, and so is its complement. |
| Offsets.LessTotal | libvast/src/offset.cpp:17-33 | The order is strict and total. |
| Offsets.PrefixFree | libvast/src/arrow_table_slice.cpp:297-309 | If a list is sorted and no offset is a prefix of the next one, none is a prefix of any other. |
| Offsets.CursorSees | libvast/src/arrow_table_slice.cpp:331-343 | What stands at the cursor tells whether any offset of the list names a field or one below it. |
| Schemas.LeavesExact | libvast/src/type.cpp:2469-2529 | The leaves are exactly the valid offsets of fields that are not records, in strictly increasing order. |
| Walks.Step | libvast/src/type.cpp:2473-2527 | One turn of the walk keeps the leaves still ahead, up to the one it yields, and comes nearer to the end. |
| Walks.AllLeaves | libvast/src/type.cpp:2469-2529 | The walk with two stacks yields the leaves of the recursion over the tree. |
| Walks.NumLeaves | libvast/src/type.cpp:2537-2591 | The count is the number of leaves. |
| Walks.ResolveFlatIndex | libvast/src/type.cpp:2593-2649 | Gives the offset of the n-th leaf, and none beyond the last. |
| Walks.FlatIndex | libvast/src/type.cpp:2896-2954 | Gives the position of a leaf; none of the assertions on the way fails. |
| Walks.FlatRoundTrip | libvast/src/type.cpp:2593-2954 | Flat index and its resolution are inverse to each other. |
| Keys.Key | libvast/src/type.cpp:2841-2861 | The loop joins the names along the offset with dots. |
| Keys.ResolveKey | libvast/src/type.cpp:2651-2724 | The backtracking search ends with the first match in depth-first order. |
| Keys.ResolveLeast | libvast/src/type.cpp:2651-2724 | What is found has the key, and is the least of all offsets with that key and a name of their own; nothing is found iff there are none. |
| Keys.RoundTrip | libvast/src/type.cpp:2651-2861 | In a record as it can be constructed, the key of any field resolves to the least offset that has this key. |
| Keys.NotFound | libvast/src/type.cpp:2651-2724 | In such a record a key is not found iff no field has it. |
| Keys.PlainRoundTrip | libvast/src/type.cpp:2651-2861 | With names without dots that differ within a record, every key resolves to its own offset. |
| Keys.Flatten | libvast/src/type.cpp:3193-3201 | The loop yields the leaves in order, each named by its key. |
| Keys.FlattenedFields | libvast/src/type.cpp:3193-3201 | The n-th flattened field has the kind and data of the field at the offset of the n-th leaf, and its key as name. |
| Keys.FlattenedKeys | libvast/src/type.cpp:3193-3201 | In the flattened record the key of a leaf resolves to its flat index. |
| Keys.FlattenedConstructed | libvast/src/type.cpp:3193-3201 | A flattened record has fields, all of them with names, as its construction insists. |
| Transforming.TransformLayer | libvast/src/type.cpp:3011-3066 | From a cursor in front of the first offset of the layer, the rewrite is that of looking up every field, and the cursor ends behind the last. |
| Transforming.Transform | libvast/src/type.cpp:2990-3083 | The result is the naive rewrite, constructible if the fields put in are, none if no field is left, and every transformation is used. |
| Transforming.DroppedLeaves | libvast/src/type.cpp:2956-2960 | Dropping at the offsets leaves exactly the columns that selecting them would not keep, in order. |
| Transforming.SelectedLeaves | libvast/src/arrow_table_slice.cpp:430-540 | The leaves of a selection are those at or below a selected offset, in order. |
| Transforming.RewriteConstructed | libvast/src/type.cpp:3046-3060 | Records that transformations leave over have fields with names at every depth, if the transformations turn such fields into such fields. |
| Transforming.StandardYields | libvast/src/type.cpp:2956-2988 | Dropping, assigning, and inserting before or after a field do so. |
| Transforming.SelectConstructed | libvast/src/arrow_table_slice.cpp:480-507 | Every record that a selection enters keeps a field, so that what is selected can be constructed. |
| Columns.TransformColumnLayer | libvast/src/arrow_table_slice.cpp:317-386 | Fields and arrays of the rewritten layer stay aligned, and together are the naive rewrite of fields with their arrays. |
| Columns.TransformColumns | libvast/src/arrow_table_slice.cpp:292-415 | The batch is the naive rewrite with aligned fields and arrays, constructible if the columns put in are, none if no column is left, and every transformation is used. |
| Columns.SelectLayer | libvast/src/arrow_table_slice.cpp:454-511 | Fields and arrays of the selected layer stay aligned, are together the naive selection, and no record that is entered ends up empty. |
| Columns.SelectColumns | libvast/src/arrow_table_slice.cpp:430-540 | The columns are exactly, and in order, the leaves at or below a selected offset, aligned, with every offset used and every record constructible; none exactly without offsets. |

## Left out

- Wah.WahBitmap.Equals: the converse is stated for up to 63 * (2^62 - 1) bits. Bitmaps count their bits with a 64-bit number, so there are no longer ones; beyond, fills would get full and be split as the history has it.
- Subnets.Subnet.Contains: needs a prefix of at least one bit, as the comparison of addresses asserts; the IPv6 subnet of length zero has no answer.
- Columns.TransformColumns: the offsets must be valid, as the final assertion demands. An array is a tree of opaque column data; row counts, validity and Arrow's own checks are not modelled.
- QueryQueues.QueryQueue.Insert: the order of entries with equal priority is unspecified, as that of the sort is.
- QueueProtocol.Conservation: supposes that query ids are not reused, candidates of one insert are distinct, new queries start with zero counters and each handed-out partition is completed at most once.
- Evaluation.Evaluate: predicates must be bound, as the original demands. How two concrete values compare is a parameter: equality, membership, and one partial order that gives the four ordering operators. The schema name and import time of a slice are given values.
- HoistedPruning.MergedInOne: being hoisted is enough for merging within one connective only, but not necessary; which other expressions do so is not characterised.
- Machine overflow of sizes and of the uint32 counters of the queue; only maxima that the code itself uses are modelled.
- The AES cipher, its contexts and the random generation of UUIDs.
- FlatBuffers packing of bitmaps, types and slices, Arrow IPC, hashing, inspection and memory use.
- The bitwise operators on whole addresses and bitmaps, `null_bitmap`, `value_index` and the concrete indexes.
- Type resolution, validation, taxonomies, the meta pruner, predicate splitting and `resolve_key_suffix`.
- Aliases and attributes below records: a record keeps opaque metadata, a leaf an opaque kind.
- Row offsets of `select`, `head`, `tail` and `split` on table slices, and the rebuilder.
- Actors, stores, plugins, logging, command line and configuration.
