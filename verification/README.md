# Models of the algorithm and concurrency samples

This project models the samples of the repository that hold real algorithms or protocols and
proves what they are for. Each sample has its own modules.

| modules | sample |
|---|---|
| `RedisRwLock`, `RedisLeases` | the reentrant read/write lock in four Lua scripts, with leases |
| `BoundedStore`, `StoreOutcomes` | producers and customers around one monitor with one wait set |
| `HuffmanTree`, `HuffmanBits`, `HuffmanOptimal`, `HuffmanForest`, `HuffmanCompression` | the Huffman codec: tree, codes, packing, optimality, round trip |
| `ShortestPath`, `Dijkstra`, `PredecessorTree` | both overloads of the shortest path search with stale queue entries |
| `Infix`, `ShuntingYard`, `Calculator`, `CalculatorProof`, `CalculatorExact`, `Parentheses` | both calculators for infix formulas |
| `AvlTree` | insertion and search in the balanced tree of linked nodes |
| `RecencyList`, `LruCache` | the cache of a dictionary and a doubly linked list |
| `DeadlockSearch`, `DeadlockReports`, `DeadlockDetector` | the search for a cycle in the resource graph |
| `DisjointSets` | union-find and the check for a circle |
| `GraphScan` | breadth-first and depth-first scan |
| `EightQueen` | counting placements of queens |
| `SqlCondition`, `WhereClause` | the translation of lambdas into WHERE clauses |

`Wrappers` holds `Option` and `Result`, `Numerals` the texts of integers, and `Helpers` a few shared
functions. An `Err`, or a false flag, stands for an exception.

Code that changes things in place is modelled by classes, arrays and loops. Each such method is
proved against a function of its inputs or of the state before, and the lemmas state what that
function is good for. Where a method of the program is long, its loop bodies are methods of their own.

Where the code does not do what one would expect of it, the model follows the code and the exact
condition is proved: the round trip of the codec (`RoundTrip`), the lease of a reader whose name also
holds the write lock (`LeaseHonouredIff`) and of a writer that unlocks in part (`WriterHonouredIff`), a
minus sign that is covered by a later operator (`AlwaysRightIffMinusSafe`), alarms without a cycle
(`FlaggedIffTwoRoutes`), and string constants in a clause (`EqualityIsExactForNumbers`).

## Model

| member | source | states |
|---|---|---|
| RedisRwLock.RunKeepsInv | src/Samples/RReadLockPOC/RReadLockPOC/WriteLock.cs:12-62 | In every state that any interleaving of the four scripts and the passing of time can reach: write mode has exactly one writer and every reader is that writer, read mode has no write field, all counters are at least 1, the hash is never empty and never outlives its expiry |
| RedisRwLock.WriterExcludesOthers | src/Samples/RReadLockPOC/RReadLockPOC/WriteLock.cs:19-27 | After any run, while one owner has the write field no other owner holds anything, and no read or write lock of another owner changes the store |
| RedisRwLock.HashExistsIffHeld | src/Samples/RReadLockPOC/RReadLockPOC/ReadLock.cs:40-84 | After any run, the hash is there exactly while some owner holds the lock at least once |
| RedisRwLock.UnlockByNonHolder | src/Samples/RReadLockPOC/RReadLockPOC/ReadLock.cs:42-48 | After any run, an unlock by an owner without a hold of that kind leaves the whole store as it was |
| RedisRwLock.ProbeMissesEveryHold | src/Samples/RReadLockPOC/RReadLockPOC/ReadLock.cs:23-63 | For all owners, fields and indexes, the name of the key that unlocking asks about differs from every name that locking sets, so `maxRemainTime` never becomes positive |
| RedisRwLock.FieldNamesDistinct | src/Samples/RReadLockPOC/RReadLockPOC/ReadWriteLockBase.cs:53-61 | The names of two different owners or kinds of hold never coincide as hash fields |
| RedisRwLock.ReadModeExpiryGrows | src/Samples/RReadLockPOC/RReadLockPOC/ReadLock.cs:26-27 | While readers hold the lock no step of anyone moves the expiry of the hash to an earlier time |
| RedisRwLock.LeaseKept | src/Samples/RReadLockPOC/RReadLockPOC/ReadLock.cs:12-84 | Whatever everyone does, until its last unlock or its deadline a reader in read mode stays counted as often as it locked minus unlocked, and the mode stays `read` |
| RedisRwLock.LeaseHonouredIff | src/Samples/RReadLockPOC/RReadLockPOC/ReadLock.cs:21-30 | For every reachable store and every lease of at least a second: a granted read lock keeps all other writers out until the last unlock or the end of the lease, over all later runs, if and only if it was not granted under the own write lock of its owner |
| RedisRwLock.LeaseLostUnderOwnWriteLock | src/Samples/RReadLockPOC/RReadLockPOC/WriteLock.cs:47-49 | The failing family, which needs one name for both kinds of lock: a partial write unlock sets the expiry from the unscaled lease, and another writer gets in two milliseconds later |
| RedisRwLock.ReaderIsHonoured | src/Samples/RReadLockPOC/RReadLockPOC/ReadWriteLockBase.cs:15-21 | Every lock object of the program has a name of its own and is of one kind: then every granted read lock is honoured |
| RedisRwLock.WriterHonouredIff | src/Samples/RReadLockPOC/RReadLockPOC/WriteLock.cs:37-62 | For every reachable store and every write lock granted for at least a second: all other owners stay out until the last unlock or the end of the lease, over all later runs in which its unlocks carry at least a given number of milliseconds, if and only if that number is at least the lease less one |
| RedisRwLock.WriterIsNotHonoured | src/Samples/RReadLockPOC/RReadLockPOC/WriteLock.cs:64-70 | The program passes the timeout itself, so the lease of a writer that locks again and unlocks once may end too early |
| RedisLeases.WriteLeasesAddUp | src/Samples/RReadLockPOC/RReadLockPOC/WriteLock.cs:12-26 | After any run that leaves the lock free, for any sequence of write locks of one owner, each within the lease so far, and any time passing: every other owner is granted a write lock, and a read lock, if and only if more than a thousand milliseconds have passed for each of all the seconds asked for |
| RedisLeases.PartialUnlockSetsLease | src/Samples/RReadLockPOC/RReadLockPOC/WriteLock.cs:46-49 | After any run, a write unlock of a lock held more than once keeps every other owner out for exactly the milliseconds it carries, whatever was left of the lease |
| RedisLeases.OwnReadTakesTheLonger | src/Samples/RReadLockPOC/RReadLockPOC/ReadLock.cs:21-28 | After any run, a read lock of the writer itself lets others in exactly when both the lease of the hash and its own have passed |
| RedisLeases.ReadLeasesTakeTheLongest | src/Samples/RReadLockPOC/RReadLockPOC/ReadLock.cs:12-30 | After any run that leaves the lock free, for any read locks of any owners and any attempts to write: a write lock is granted if and only if the latest of all their ends has passed, and a read lock always |
| RedisLeases.StepCounts | src/Samples/RReadLockPOC/RReadLockPOC/WriteLock.cs:12-62 | Every step changes every counter by exactly one for a granted lock of its own field and by minus one for an unlock of a field that is held, as long as the hash remains |
| RedisLeases.LastUnlockFrees | src/Samples/RReadLockPOC/RReadLockPOC/WriteLock.cs:50-58 | An unlock of a field that is held removes the hash if and only if that was the only hold of anybody |
| RedisLeases.WriterBecomesReader | src/Samples/RReadLockPOC/RReadLockPOC/WriteLock.cs:50-58 | The last write unlock of an owner that also reads leaves its read holds, the expiry and read mode, so everybody may read and nobody write |
| RedisLeases.HoldKeysPerStep | src/Samples/RReadLockPOC/RReadLockPOC/ReadLock.cs:14-54 | For every step and every key of a hold: a granted read lock sets the key with the new count for its own lease in milliseconds, a read unlock removes the key with the old count, time removes what has expired, and every other key stays as it is |
| RedisLeases.KeysOfRun | src/Samples/RReadLockPOC/RReadLockPOC/ReadLock.cs:14-54 | In every run of read locks and read unlocks by any owners, each key that is left is that of a hold that is left, and it does not outlast the hash |
| RedisRwLock.Server.TryReadLock | src/Samples/RReadLockPOC/RReadLockPOC/ReadLock.cs:12-38 | The commands of the script, one by one, keep the invariant and have the effect of one atomic step; the reply is nil exactly if the lock is granted, and else the remaining time |
| RedisRwLock.Server.TryReadUnlock | src/Samples/RReadLockPOC/RReadLockPOC/ReadLock.cs:40-94 | Likewise for the read unlock, with its three replies; the branch that would reset the expiry is dead |
| RedisRwLock.Server.MaxRemainTime | src/Samples/RReadLockPOC/RReadLockPOC/ReadLock.cs:57-67 | The loop over all counters finds no remaining time at all |
| RedisRwLock.Server.TryWriteLock | src/Samples/RReadLockPOC/RReadLockPOC/WriteLock.cs:12-34 | Likewise for the write lock, first and reentrant; `RedisLeases.WriteLeasesAddUp` says what the step means for the lease |
| RedisRwLock.Server.TryWriteUnlock | src/Samples/RReadLockPOC/RReadLockPOC/WriteLock.cs:37-72 | Likewise for the write unlock, including the change to read mode when read holds remain |
| BoundedStore.NextKeepsInv | src/Samples/OwnConsumerPublisher/OwnConsumerPublisher/Program.cs:46-75 | Every step of every thread keeps: the wait set matches the waiting threads, at most one owner, conservation of products, and no lost wake-up |
| BoundedStore.RunKeepsInv | src/Samples/OwnConsumerPublisher/OwnConsumerPublisher/Program.cs:46-75 | The same over all runs, with any number of producers and customers and any time-outs |
| BoundedStore.StockIsSafe | src/Samples/OwnConsumerPublisher/OwnConsumerPublisher/Program.cs:50-55 | In every run the sold products followed by the queue are the purchased ones in order, and the stock never exceeds the capacity |
| BoundedStore.WaitersHaveAReason | src/Samples/OwnConsumerPublisher/OwnConsumerPublisher/Program.cs:50-69 | Whenever the monitor is free, a waiting producer means a full queue, and a waiting customer means that the stock is at most the number of pulsed customers that have not run |
| BoundedStore.PulseNeverLandsOnProducer | src/Samples/OwnConsumerPublisher/OwnConsumerPublisher/Program.cs:56 | The single Pulse after a purchase always wakes a customer, although producers share the wait set |
| BoundedStore.SomePulsedCustomerBuys | src/Samples/OwnConsumerPublisher/OwnConsumerPublisher/Program.cs:64-73 | With goods in stock and a customer waiting there is a pulsed customer that takes the next product as soon as it runs |
| BoundedStore.NoStandoff | src/Samples/OwnConsumerPublisher/OwnConsumerPublisher/Program.cs:46-75 | When nobody can run, waiting customers mean an empty store and waiting producers a full one, never both |
| StoreOutcomes.SalesAddUp | src/Samples/OwnConsumerPublisher/OwnConsumerPublisher/Program.cs:60-75 | Along every run from every reachable state, the sales a thread begins are the products it takes plus the time-outs it has, plus one that is still open |
| StoreOutcomes.SaleEndsOneWay | src/Samples/OwnConsumerPublisher/OwnConsumerPublisher/Program.cs:60-75 | Over all runs, a sale that has ended took exactly one product or timed out, and not both |
| StoreOutcomes.TimeOutEndsSale | src/Samples/OwnConsumerPublisher/OwnConsumerPublisher/Program.cs:64-69 | In every reachable state with a waiting customer and a free monitor: once its second is over and it runs, the customer is idle again and stock and sold products are as before, even with goods in stock |
| StoreOutcomes.PurchaseAddsItsProduct | src/Samples/OwnConsumerPublisher/OwnConsumerPublisher/Program.cs:46-58 | Over all runs, the purchases of a thread that have ended added exactly the products it brought, once each and in order |
| StoreOutcomes.WhoIsWoken | src/Samples/OwnConsumerPublisher/OwnConsumerPublisher/Program.cs:56-72 | A purchase wakes the thread that waits longest and nobody else, a sale wakes everybody |
| StoreOutcomes.WaitsInLine | src/Samples/OwnConsumerPublisher/OwnConsumerPublisher/Program.cs:52-66 | Whoever starts to wait is last in line, and the others keep their places |
| BoundedStore.Store.TimeOut | src/Samples/OwnConsumerPublisher/OwnConsumerPublisher/Program.cs:66 | The end of the second takes a waiting customer, and nobody else, out of the wait set without a pulse |
| BoundedStore.Store.Enter | src/Samples/OwnConsumerPublisher/OwnConsumerPublisher/Program.cs:62-68 | Getting the monitor leads to the test of the loop condition, or after a time-out straight out of the sale |
| BoundedStore.Store.ContinuePurchase | src/Samples/OwnConsumerPublisher/OwnConsumerPublisher/Program.cs:46-58 | Each uninterrupted stretch of a purchase is one step of the transition system |
| BoundedStore.Store.ContinueSell | src/Samples/OwnConsumerPublisher/OwnConsumerPublisher/Program.cs:60-75 | Each uninterrupted stretch of a sale is one step, and it answers with exactly the product it adds to the sold ones |
| BoundedStore.Store.PulseAll | src/Samples/OwnConsumerPublisher/OwnConsumerPublisher/Program.cs:72 | Waking the waiting threads one by one empties the wait set and wakes all of them |
| HuffmanTree.ScanTree | src/Algorithm_DataStructure/HuffmanCode/Node.cs:16-39 | The scan enters each byte of the tree once, with the turns from the root to its leaf |
| HuffmanTree.PathsPrefixFree | src/Algorithm_DataStructure/HuffmanCode/Node.cs:22-39 | No code is a prefix of another one |
| HuffmanTree.DecodeEncode | src/Algorithm_DataStructure/HuffmanCode/Compression.cs:83-97 | Walking the tree along the encoding of any buffer gives the buffer back |
| HuffmanTree.DecodedIffSpelled | src/Algorithm_DataStructure/HuffmanCode/Compression.cs:83-97 | For any bits at all, truncated or foreign ones included: they are decoded to a buffer if and only if they are its encoding followed by turns that stay inside the tree, and every other text throws |
| HuffmanBits.PackedBit | src/Algorithm_DataStructure/HuffmanCode/Compression.cs:27-29 | Bit 8j + k of the packed bits is the binary digit k of byte j, and the digits beyond the last bit are zero |
| HuffmanBits.UnpackPack | src/Algorithm_DataStructure/HuffmanCode/Compression.cs:27-79 | Packing bits into bytes in reverse and unpacking the bytes gives the bits back, except that leading zeros of a whole last byte are dropped |
| HuffmanBits.PackedBitsRecovered | src/Algorithm_DataStructure/HuffmanCode/Compression.cs:64-75 | Bits are lost exactly when their number is a multiple of 8 and the first one is zero |
| HuffmanOptimal.GreedyStep | src/Algorithm_DataStructure/HuffmanCode/Compression.cs:116-130 | Any assignment of depths within the Kraft inequality can be changed into one for the merged weights that costs less by at least the merged weight |
| HuffmanOptimal.KraftInequality | src/Algorithm_DataStructure/HuffmanCode/Compression.cs:102-133 | The lengths of any prefix-free code satisfy the Kraft inequality |
| HuffmanForest.GroupByCost | src/Algorithm_DataStructure/HuffmanCode/Compression.cs:22-26 | The cost of a code over the byte counts is the length of the encoded buffer |
| HuffmanForest.PathLengthIsTurns | src/Algorithm_DataStructure/HuffmanCode/Compression.cs:116-130 | The sum of all merged weights is the number of turns taken over the whole buffer |
| HuffmanForest.SortNodes | src/Algorithm_DataStructure/HuffmanCode/Compression.cs:118 | Sorting by weight, with the order of equal weights left open |
| HuffmanForest.CreateHuffmanTree | src/Algorithm_DataStructure/HuffmanCode/Compression.cs:102-133 | The merged tree keeps every leaf once, weighs its children, has no right child heavier than its sibling, and no feasible assignment of depths to the leaves costs less than its merges; a single leaf is the right child of a root without a left one; an empty list throws |
| HuffmanCompression.BoundMeansShortest | src/Algorithm_DataStructure/HuffmanCode/Compression.cs:102-133 | A tree with this bound encodes its buffer in at most as many bits as any prefix-free code over the same bytes |
| HuffmanCompression.OneBitEach | src/Algorithm_DataStructure/HuffmanCode/Compression.cs:104-114 | A buffer of a single byte, repeated or not, is encoded in ones, one for each byte |
| HuffmanCompression.BuiltBitLength | src/Algorithm_DataStructure/HuffmanCode/Compression.cs:26-30 | The bit length of the encoding is the path length of the tree, and the codes are prefix-free |
| HuffmanCompression.Compression.Zip | src/Algorithm_DataStructure/HuffmanCode/Compression.cs:20-31 | The stored codes and the packed bytes are those of a tree over exactly the bytes of the buffer; for every non-empty buffer no prefix-free code with non-empty words is shorter, and with two distinct bytes none at all, however ties are broken; without two distinct bytes the encoding is one 1 for each byte; an empty buffer throws |
| HuffmanCompression.Compression.UnZip | src/Algorithm_DataStructure/HuffmanCode/Compression.cs:77-100 | The cursor loop computes the decoding of the unpacked bytes, with the same exceptions |
| HuffmanCompression.RoundTrip | src/Algorithm_DataStructure/HuffmanCode/Compression.cs:20-100 | For every non-empty buffer, unzipping what was zipped gives it back if and only if the bit length is no multiple of 8 or the first bit is one |
| HuffmanCompression.RoundTripFails | src/Algorithm_DataStructure/HuffmanCode/Compression.cs:67-70 | A concrete buffer of eight bytes that does not come back, whichever tree `Zip` leaves behind for it |
| ShortestPath.EmptyQueueIsFinal | src/Algorithm_DataStructure/DijkstraSample/Program.cs:132-153 | When the queue is empty every finite distance is that of a shortest walk, and the other vertices are unreachable |
| ShortestPath.RelaxAllEdges | src/Algorithm_DataStructure/DijkstraSample/Program.cs:141-151 | Relaxing all edges of a popped vertex keeps the invariant, whether the entry is current or stale |
| ShortestPath.LabelFits | src/Algorithm_DataStructure/DijkstraSample/Program.cs:144-146 | The sum of a popped label and the weight of an edge of its vertex is below `int.MaxValue`, so it does not wrap around |
| ShortestPath.PopCounts | src/Algorithm_DataStructure/DijkstraSample/Program.cs:132-152 | Every pop is paid for: entries enqueued plus edges not yet used never exceed one more than the number of edges |
| ShortestPath.EveryRun | src/Algorithm_DataStructure/DijkstraSample/Program.cs:132-153 | In every run, however ties are broken: the entries popped and those still queued, stale ones included, are at most 1 + number of edges, and once none is left the labels are the distances |
| Dijkstra.BuildNextMap | src/Algorithm_DataStructure/DijkstraSample/Program.cs:124-128 | The map lists exactly the outgoing edges of each vertex, in order |
| Dijkstra.ShortestDistances | src/Algorithm_DataStructure/DijkstraSample/Program.cs:107-156 | With non-negative weights below `int.MaxValue` in sum: the shortest distance of every reachable vertex and -1 for all others, reached by a run that starts with the source alone, ends with an empty queue and pops at most 1 + number of edges entries |
| PredecessorTree.FollowBack | src/Algorithm_DataStructure/DijkstraSample/Program.cs:184 | Following the predecessors from a reached vertex ends at the source without repeating a vertex and spells a walk of the weight of its label |
| PredecessorTree.FinalTree | src/Algorithm_DataStructure/DijkstraSample/Program.cs:174-191 | When the queue is empty, that walk is a shortest one |
| PredecessorTree.Predecessors | src/Algorithm_DataStructure/DijkstraSample/Program.cs:158-192 | The returned table of names: every reached name leads back along a shortest walk to the source, and all other entries and that of the source are empty |
| Infix.ToExpressionList | src/Algorithm_DataStructure/PolandNotation/Program.cs:12-36 | The two nested index loops compute tokens that spell exactly the formula without its blanks, runs of digits undivided; it throws if and only if there is nothing but blanks |
| Infix.BlanksRemoved | src/Algorithm_DataStructure/PolandNotation/Program.cs:13 | The blanks are removed and nothing else: the result is the one text without blanks that the formula is with blanks inserted |
| Infix.TokensSpell | src/Algorithm_DataStructure/PolandNotation/Program.cs:12-36 | The tokens spell the text, and each is a maximal run of digits or one other character |
| Infix.TokensAreUnique | src/Algorithm_DataStructure/PolandNotation/Program.cs:12-36 | Any list of such tokens is what the tokenizer makes of the text it spells |
| Infix.TokenizerRecoversTokens | src/Algorithm_DataStructure/PolandNotation/Program.cs:12-36 | For every well-formed expression and every formula that is its text with blanks inserted anywhere, the tokenizer recovers the tokens of the expression |
| ShuntingYard.ToSuffixExpression | src/Algorithm_DataStructure/PolandNotation/Program.cs:42-76 | The loops over the operator stack compute the suffix function, with the same exception for an unmatched parenthesis |
| ShuntingYard.SuffixIsPostorder | src/Algorithm_DataStructure/PolandNotation/Program.cs:42-76 | For every well-formed expression the suffix form of its tokens is the postorder of its tree |
| ShuntingYard.EvalPostorder | src/Algorithm_DataStructure/PolandNotation/Program.cs:80-92 | Evaluating a postorder pushes the value of the tree, for any meaning of the four operators |
| ShuntingYard.EvalRPN | src/Algorithm_DataStructure/PolandNotation/Program.cs:77-92 | The stack loop computes the evaluation of a formula |
| ShuntingYard.EvaluationIsCorrect | src/Algorithm_DataStructure/PolandNotation/Program.cs:12-122 | For every well-formed expression and any meaning of numerals and operators, the evaluation of its text, with blanks inserted anywhere, is the value of its tree, exceptions included |
| Parentheses.SuffixIffMatched | src/Algorithm_DataStructure/PolandNotation/Program.cs:42-76 | For any tokens at all: the suffix form comes out without anything but numerals and operators if and only if the tokens are known and their parentheses match |
| Parentheses.EvaluationThrows | src/Algorithm_DataStructure/PolandNotation/Program.cs:42-117 | Any formula whose parentheses do not match, or that holds an unknown token, throws |
| Parentheses.CalculationThrows | src/Algorithm_DataStructure/PolandNotation/Program.cs:130-167 | The other calculator throws on any formula whose parentheses do not match, counting those left on its stack by an earlier exception, and an answer leaves none there |
| Calculator.Calculator.Calc | src/Algorithm_DataStructure/PolandNotation/Program.cs:130-167 | The loops over the two field stacks compute the one-reduction-per-operator calculation and leave the stacks as that does |
| Calculator.Calculator.CalcNumberStack | src/Algorithm_DataStructure/PolandNotation/Program.cs:176-183 | One reduction: the two top numbers are replaced by the result of the top operator, or it throws |
| Numerals.ParseToText | src/Algorithm_DataStructure/PolandNotation/Program.cs:179-182 | A result written onto the number stack is read back unchanged, negative ones included |
| Numerals.PlacesCount | src/Algorithm_DataStructure/PolandNotation/Program.cs:179-180 | Digits count by their place |
| CalculatorProof.QuotientTruncates | src/Algorithm_DataStructure/PolandNotation/Program.cs:195-198 | The quotient is the one integer that is truncated toward zero: what remains is smaller than the divisor and has the sign of the dividend |
| CalculatorProof.ReadExpr | src/Algorithm_DataStructure/PolandNotation/Program.cs:132-159 | Reading a minus-safe expression leaves numbers and operators waiting that collapse to exactly its value |
| CalculatorProof.CalculationIsCorrect | src/Algorithm_DataStructure/PolandNotation/Program.cs:130-183 | On every minus-safe formula, blanks anywhere, in which no subtracted product or quotient is followed by a further sum operator, the result is the value by the grammar with truncating division, division by zero throws, and both stacks are empty afterwards |
| CalculatorProof.CalculationWithoutMinus | src/Algorithm_DataStructure/PolandNotation/Program.cs:130-183 | In particular on every formula without a minus sign |
| CalculatorExact.CoveredMinusIsWrong | src/Algorithm_DataStructure/PolandNotation/Program.cs:168-174 | A formula that covers such a minus, with operands that are right: the last operand gets the opposite sign, so the result is right if and only if that operand is zero |
| CalculatorExact.ShortestUnsafeFormula | src/Algorithm_DataStructure/PolandNotation/Program.cs:168-174 | `1-2*3+4` gives -9 |
| CalculatorExact.AlwaysRightIffMinusSafe | src/Algorithm_DataStructure/PolandNotation/Program.cs:130-183 | For every well-formed formula: the result is right on all formulas of the same shape, whatever their numerals, if and only if no subtracted product or quotient is followed by a further sum operator |
| CalculatorExact.FalsifiedReads | src/Algorithm_DataStructure/PolandNotation/Program.cs:132-159 | The other half in full: in every formula with such an operator, wherever it is nested, numerals can be chosen so that the grammar gives one or minus one and the calculator the opposite |
| CalculatorExact.AssignedReads | src/Algorithm_DataStructure/PolandNotation/Program.cs:132-159 | With neutral operands everywhere the calculator is right on every formula, however it groups |
| AvlTree.InsertedInorder | src/Algorithm_DataStructure/AVL_TreeSample/Program.cs:82-123 | Insertion with rotations is sorted insertion, after all equal values, into the in-order sequence |
| AvlTree.InsertedGrows | src/Algorithm_DataStructure/AVL_TreeSample/Program.cs:104-120 | Insertion into a balanced tree gives a balanced one that is at most one level higher |
| AvlTree.BalancedIsFull | src/Algorithm_DataStructure/AVL_TreeSample/Program.cs:104-120 | A balanced tree of height h has at least Fib(h + 2) - 1 nodes |
| AvlTree.InsertionIsStable | src/Algorithm_DataStructure/AVL_TreeSample/Program.cs:91-102 | Among equal values the order of insertion is kept |
| AvlTree.AllInsertions | src/Algorithm_DataStructure/AVL_TreeSample/Program.cs:82-123 | After any sequence of insertions into the empty tree: balanced, one node per insertion, Fibonacci height bound, and the in-order sequence is the stable sort of the insertions |
| AvlTree.Node.LeftRotate | src/Algorithm_DataStructure/AVL_TreeSample/Program.cs:208-228 | The pointer updates turn the linked nodes into the rotated tree |
| AvlTree.Node.RightRotate | src/Algorithm_DataStructure/AVL_TreeSample/Program.cs:230-235 | Likewise to the right |
| AvlTree.Node.Search | src/Algorithm_DataStructure/AVL_TreeSample/Program.cs:248-263 | A node is returned exactly if some node below holds the value, and it holds it, duplicates on both sides included |
| AvlTree.BST.AddNode | src/Algorithm_DataStructure/AVL_TreeSample/Program.cs:82-89 | On the linked nodes: ordered and balanced before and after, exactly the new node is added, at its place in the in-order sequence |
| AvlTree.BST.Add | src/Algorithm_DataStructure/AVL_TreeSample/Program.cs:91-123 | The recursion over the linked nodes builds the inserted tree |
| RecencyList.HoldsMostRecentlyUsed | src/Algorithm_DataStructure/LRU_Algorithm/Program.cs:18-52 | After any sequence of calls: the entries are in the order of the last uses of their keys, hold the values last put, are at most capacity many, and a key is held if and only if it was used and fewer than capacity other keys were used after it |
| RecencyList.FindsWhatWasPutLast | src/Algorithm_DataStructure/LRU_Algorithm/Program.cs:18-27 | After any sequence of calls, what is found for a key that is held is the value of its last Put among all calls |
| RecencyList.VictimIsLeastRecentlyUsed | src/Algorithm_DataStructure/LRU_Algorithm/Program.cs:42-47 | A Put into a full cache removes the key whose last use is the oldest, and no other |
| RecencyList.RunKeepsOrder | src/Algorithm_DataStructure/LRU_Algorithm/Program.cs:18-52 | The bounded list is always the front of the unbounded list of the uses |
| LruCache.DoubleLinkedList.AddHeader | src/Algorithm_DataStructure/LRU_Algorithm/DoubleLinkedList.cs:16-21 | The rewired pointers link the node directly behind the header, `Prev` and `Next` still mutually inverse from sentinel to sentinel |
| LruCache.DoubleLinkedList.RemoveNode | src/Algorithm_DataStructure/LRU_Algorithm/DoubleLinkedList.cs:23-27 | The rewired pointers drop exactly that node |
| LruCache.LRUCache.Get | src/Algorithm_DataStructure/LRU_Algorithm/Program.cs:18-27 | Dictionary and linked list go on holding the same nodes; the result and the new order are those of the recency list, -1 for a missing key |
| LruCache.LRUCache.Put | src/Algorithm_DataStructure/LRU_Algorithm/Program.cs:29-52 | The same for Put, with the same victim, for every capacity; a negative one never evicts, and with 0 every call throws and the cache stays empty |
| LruCache.LRUCache.Evict | src/Algorithm_DataStructure/LRU_Algorithm/Program.cs:42-47 | The node before the tail is unlinked and its key removed from the dictionary; if that node is the header, it throws |
| DeadlockSearch.FlaggedIffTwoRoutes | src/C_Sample/deadlock-detector/deadlock-detection.c:140-200 | The searches run into something seen if and only if two different routes lead from some entered vertex to the same vertex |
| DeadlockSearch.CycleIsFlagged | src/C_Sample/deadlock-detector/deadlock-detection.c:140-200 | Every cycle makes some search run into something seen |
| DeadlockSearch.FlaggedIffCycle | src/C_Sample/deadlock-detector/deadlock-detection.c:140-200 | With at most one outgoing edge per vertex: if and only if there is a cycle |
| DeadlockSearch.DiamondIsFlagged | src/C_Sample/deadlock-detector/deadlock-detection.c:143-148 | Without that condition there are false alarms: a concrete acyclic graph that is flagged |
| DeadlockSearch.RouteIsUnique | src/C_Sample/deadlock-detector/deadlock-detection.c:140-159 | A search without a hit has explored a tree: no two routes end in the same vertex |
| DeadlockSearch.HitCollides | src/C_Sample/deadlock-detector/deadlock-detection.c:140-159 | A hit comes from two routes to one vertex or from a route back into what was marked before |
| DeadlockDetector.Detector.SearchVertex | src/C_Sample/deadlock-detector/deadlock-detection.c:57-67 | The first position of the node, or -1 exactly if it is not there |
| DeadlockDetector.Detector.AddVertex | src/C_Sample/deadlock-detector/deadlock-detection.c:68-76 | A new node becomes a vertex without edges; a known one changes nothing |
| DeadlockDetector.Detector.AddEdge | src/C_Sample/deadlock-detector/deadlock-detection.c:77-87 | Both ends become vertices, the list of the source gets the target as its last element, and every other list stays as it was; after any calls the lists hold exactly the targets of the calls, in their order |
| DeadlockReports.WhatIsPrinted | src/C_Sample/deadlock-detector/deadlock-detection.c:127-184 | On any graph: something is printed if and only if some search runs into something seen, each print-out is a chain of edges that repeats no vertex before its last one, and with at most one outgoing edge per vertex the last one repeats, so it shows a cycle |
| DeadlockDetector.CyclesOfCalls | src/C_Sample/deadlock-detector/deadlock-detection.c:77-87 | The stored graph has a cycle if and only if the calls of `AddEdge` have one |
| DeadlockDetector.FlaggedByCalls | src/C_Sample/deadlock-detector/deadlock-detection.c:186-200 | What the searches find, said of the calls |
| DeadlockDetector.Detector.DFS | src/C_Sample/deadlock-detector/deadlock-detection.c:140-159 | The recursion terminates, marks what the search sees, sets the flag exactly on a hit, leaves the route plus its vertex in the path buffer, never indexes past it, and prints the path to every vertex it runs into |
| DeadlockDetector.Detector.SearchForCycle | src/C_Sample/deadlock-detector/deadlock-detection.c:161-184 | One search along each outgoing edge, with all other marks and the path reset before it |
| DeadlockDetector.Detector.CheckDeadLock | src/C_Sample/deadlock-detector/deadlock-detection.c:186-200 | The flag is 1 after the check if and only if some search from some vertex runs into something seen; so it is 1 whenever the calls of `AddEdge` contain a cycle, and only then if no node is the source of two calls; something is printed exactly if it is 1 |
| DisjointSets.SameRootIffConnected | src/Algorithm_DataStructure/DisjointSets/Program.cs:25-43 | After any sequence of unions, two vertices share a root if and only if the edges connect them |
| DisjointSets.RootsAndUnions | src/Algorithm_DataStructure/DisjointSets/Program.cs:25-43 | The number of roots plus the number of successful unions is the number of vertices |
| DisjointSets.HungRepresents | src/Algorithm_DataStructure/DisjointSets/Program.cs:36-40 | Hanging a root below another one keeps the parent array acyclic |
| DisjointSets.ClosesIffCircle | src/Algorithm_DataStructure/DisjointSets/Program.cs:64-73 | Some union fails if and only if the edges contain a closed trail of distinct edges, loops and parallel edges included |
| DisjointSets.DisjointSets.FindRoot | src/Algorithm_DataStructure/DisjointSets/Program.cs:7-15 | The loop terminates at the root of the tree |
| DisjointSets.DisjointSets.UnionVertices | src/Algorithm_DataStructure/DisjointSets/Program.cs:25-43 | 0 and unchanged arrays exactly if both are in the same tree; otherwise 1, the root of y hangs below the root of x and nothing else moves, and the rank of that root grows by one unless it was the greater one |
| DisjointSets.DisjointSets.DetectCircle | src/Algorithm_DataStructure/DisjointSets/Program.cs:50-73 | The loop reports a circle if and only if the edge list contains one |
| GraphScan.Graph.InsertVertex | src/Algorithm_DataStructure/GraphSample/Program.cs:23-25 | Adds a vertex without edges, or changes nothing if it is there; edges go on naming vertices |
| GraphScan.Graph.InsertEdge | src/Algorithm_DataStructure/GraphSample/Program.cs:27-46 | Appends the target to the list of the source, and throws exactly for an unknown source |
| GraphScan.LevelsAreDistances | src/Algorithm_DataStructure/GraphSample/Program.cs:102-124 | With an empty queue the printed vertices are the reachable ones and their levels the shortest distances |
| GraphScan.CompleteHoldsWalks | src/Algorithm_DataStructure/GraphSample/Program.cs:75-93 | A printed list that is closed under edges and holds the start holds everything reachable |
| GraphScan.BFS.Scan | src/Algorithm_DataStructure/GraphSample/Program.cs:102-124 | Prints every reachable vertex exactly once and no other, in non-decreasing distance, and each next one is the first target not printed yet of the earliest printed vertex that has one |
| GraphScan.DFS.Scan | src/Algorithm_DataStructure/GraphSample/Program.cs:75-78 | Prints every reachable vertex exactly once and no other, and each next one is the first target not printed yet of the latest printed vertex that has one |
| GraphScan.DFS.ScanFrom | src/Algorithm_DataStructure/GraphSample/Program.cs:80-93 | The recursion terminates, prints its vertex first, and leaves the targets of everything it printed printed |
| EightQueen.Solution.TotalNQueens | src/Algorithm_DataStructure/EightQueen/Program.cs:16-21 | For every n, the number of placements of n queens in which no two attack each other |
| EightQueen.Solution.SearchQueen | src/Algorithm_DataStructure/EightQueen/Program.cs:54-69 | Adds the number of peaceful completions of the rows placed so far, and leaves the board as it was |
| EightQueen.Solution.IsContaineQueens | src/Algorithm_DataStructure/EightQueen/Program.cs:23-52 | The four loops answer true exactly if a placed queen attacks the cell |
| EightQueen.NextColumn | src/Algorithm_DataStructure/EightQueen/Program.cs:61-68 | The completions by column of the next queen are disjoint and add up |
| EightQueen.AttackedHasNone | src/Algorithm_DataStructure/EightQueen/Program.cs:63 | A skipped cell leads to no solution |
| EightQueen.PlacementsAreAll | src/Algorithm_DataStructure/EightQueen/Program.cs:16-21 | The counted placements range over all sequences of columns |
| WhereClause.ClauseIsExact | src/Samples/DynamicORMSample/Program.cs:52-100 | For every lambda whose constants are numbers or texts like names, the clause can be read with AND binding tighter than OR if and only if the lambda is built from AndAlso and OrElse over comparisons of a member with a constant; then it is true on exactly the rows where the lambda is, with each text standing for the column of that name, although it is not parenthesised as a whole |
| WhereClause.NumbersNeedNoQuotes | src/Samples/DynamicORMSample/Program.cs:96 | With numbers only, reading texts as columns makes no difference to any row |
| WhereClause.QueryOfMain | src/Samples/DynamicORMSample/Program.cs:19-21 | The very text that is written for the lambda of the program |
| WhereClause.WhereThrows | src/Samples/DynamicORMSample/Program.cs:83-99 | An exception is thrown if and only if some comparison that connectives lead to has no member on its left or no constant on its right |
| WhereClause.ReadCondition | src/Samples/DynamicORMSample/Program.cs:99 | Every parenthesised operand is read back as its meaning, and an unsupported one is never read as something else |
| WhereClause.WordsOfWhere | src/Samples/DynamicORMSample/Program.cs:82-100 | The words of the emitted text are the words of the expression, in order |
| WhereClause.StringIsReadAsColumn | src/Samples/DynamicORMSample/Program.cs:96 | A string constant is written without quotes, so it is read as the name of a column |
| WhereClause.EqualityIsExactForNumbers | src/Samples/DynamicORMSample/Program.cs:96 | For an equality with any constant, whatever its text: the clause can be read and is true on exactly the right rows if and only if the constant is a number |
| WhereClause.DBQueryContext.SetWhere | src/Samples/DynamicORMSample/Program.cs:52-61 | The last binary lambda decides the clause, another body changes nothing, and a cast that fails throws |
| WhereClause.QueryIsExact | src/Samples/DynamicORMSample/Program.cs:63-80 | The whole query reads back as the selected columns, the table and a condition that is true on exactly the rows where the lambda is, texts standing for columns; for an unsupported lambda it cannot be read |
| WhereClause.DBQueryContext.BuildQuery | src/Samples/DynamicORMSample/Program.cs:63-80 | After any selections and lambdas, the query that is built reads back as what was selected and what the last lambda means, or without a condition if there was none |

## Left out

- CalculatorExact.AlwaysRightIffMinusSafe: is about all formulas of a shape. Which single formulas of an unsafe shape come out right by their numbers is stated only for one covered minus at the top.
- ShuntingYard.EvaluationIsCorrect: numbers and operators are arbitrary, so `decimal` rounding and range are not modelled; only the digits 0 to 9 count as digits.
- Calculator.Calculator.Calc: integers are unbounded; after an exception the contents of the two stacks are left open. A leading `-` or `+` sign and spaces in a numeral do not occur in tokens.
- Parentheses.EvaluationThrows: says which formulas throw for their parentheses or tokens; which formulas with too few numbers are nevertheless answered is not stated.
- HuffmanForest.CreateHuffmanTree: tree nodes are values, so the list of nodes is a sequence that is reassigned, and removal by reference is removal of the first two nodes of the sorted list. Weights do not overflow.
- HuffmanTree.ScanTree: the code is an argument of the recursion, not a field that the scan writes into the child nodes.
- HuffmanCompression.RoundTrip: speaks of one buffer and the tree that `Zip` left on the same instance; text encoding, `ZipFile` and `UnZipFile` are not part of this model.
- RedisRwLock.LeaseHonouredIff: a script is one atomic step on one lock name, and time moves only between scripts. The endless retry of `TryLock`, sleeping, the connection and the uniqueness of generated identifiers are left out; the names of owners are arbitrary.
- RedisRwLock.WriterHonouredIff: the owner's own locks are for at least a second each.
- RedisRwLock.Server.MaxRemainTime: goes over the fields in any order, where the script goes over the keys of the hash, `mode` included, which is no number.
- BoundedStore.RunKeepsInv: a thread that is pulsed is not timed out afterwards, and the factory and customer loops are any sequences of calls. No claim is made about fairness.
- Dijkstra.ShortestDistances: the endpoints are in range and edges have three entries; the queue pops any entry of the least priority.
- PredecessorTree.Predecessors: the queue holds names instead of references to nodes, names match the keys of the map, and the list of all edges is a ghost argument.
- AvlTree.BST.AddNode: the added node is a leaf that is not in the tree yet. `Delete`, `SearchParent` and the unbalanced search tree are left out.
- DeadlockDetector.Detector.AddEdge: the linked list of the targets of a vertex is a sequence, and at most `MAX` vertices are added, as the program does not check. `remove_edge`, `verify_edge`, the lock table, the hooked mutex calls, the thread that ends others, and changes during a search are left out.
- DeadlockDetector.Detector.CheckDeadLock: print-outs are sequences of vertex numbers, where the program prints the identifiers of the threads.
- DisjointSets.DisjointSets.UnionVertices: ranks do not overflow, and no bound on the depth of the trees is claimed, since the second test of the ranks repeats the first.
- GraphScan.BFS.Scan: edges name inserted vertices and the start is one; the linked list of targets is a sequence. Console output is the sequence of printed names.
- EightQueen.Solution.TotalNQueens: the size of the board is read off one side instead of the square root of its area; the counter does not overflow.
- WhereClause.ClauseIsExact: members of a lambda are those of its parameter, names and texts contain no spaces, parentheses, relation signs, commas or asterisks and do not begin with a digit or a minus sign, and there are no nulls. Reserved words and quoting rules of SQL other than those of the emitted text are left out; a comparison with an unknown column counts as not true.
- WhereClause.DBQueryContext.Select: takes the member names that the lambda selects.
- Merge sort, quick sort, Hanoi, big-number addition, the monotonic stack, the hash table and the other data structure samples: they would only add easier members.
- The prefix table of the KMP sample, the blocking queue, the event handle sample, the timer and the coroutine sample are left out: their code does not keep the property one would state.
- Sockets, message brokers, cloud clients, kernel modules, benchmarks and web pages are left out.
