# Verified models of seeks

These Dafny modules model the parts of seeks whose correctness is not visible from reading one function: the features
that stand for queries, the locality-sensitive index of strings, the ring keys of the distributed hash table, the pool of
reusable server connections, and three byte algorithms of the proxy that work in place. Run
`dafny verify dfyconfig.toml` to check all of it.

Objects that the source updates in place are classes and arrays here (`DHTKey`, `StrChain`, `Bucket`,
`LSHUniformHashTable`, `Gateway`, `Bag`, the byte buffers), and their methods are proved against functions of values; the
laws are then lemmas about those functions.

## What is modelled

**Query features** (`Chains`, `Masks`, `Mrf`, `Tokenizer`, `Extract`, `Query`, `Distance`, `TfIdf`, with `Sorting`).
A window of tokens is expanded by a queue into chains of tokens and skips. A chain is described by a mask, so the
features of a window are the subsets of its positions that contain the first and whose radius is within the bounds, each
once. The text that is hashed is a canonical form of the chain. The streaming extractor yields what the batch extractor
yields exactly when `max_radius < 0`, or `0 <= max_radius <= window` and `step <= window` (or the window is empty);
`ExtractorsAgree` proves both directions. The merge-based distance is the size of a multiset difference, hence a metric.
The tf-idf pass uses the document frequencies of the bags it was given although it rewrites them.

**String index** (`Buckets`, `Filing`, `Index`, `HashTable`, `Hamming`, `HammingTable`, `Counting`). `Filing` states what
must hold between slots, index of filled slots, bucket pool and contents, and proves on values what each change keeps;
`HashTable` is the code on the heap. A ghost ledger describes every bucket that is allocated. `HammingTable` ties the
index to the strings a client put in and did not take out: a lookup is a linear scan of them.

**Ring keys** (`Binary`, `RingKey`, `KeyText`). Bit loops are proved to be arithmetic modulo 2^N for every width N; the
source has N = 160. The four circular intervals are ranges of clockwise distance.

**Connection pool** (`Pool`, `PoolRuns`). Every section that runs under the mutex is one method in `Pool`, with the
source's assertions as assertions or preconditions. `PoolRuns` interleaves the sections of any number of clients, the
states between two sections of `remember_connection` and of `get_reusable_connection` included. A new socket may get any
number that is not open. Clients keep to two rules: they forget a pooled socket before closing it, and they store a
socket with the destination they use it for.

**Proxy filters** (`Chunked`, `Acl`, `Access`, `Cookie`, with `CText`). De-chunking, address prefixes and rule lists, what
the check without a destination is worth, and the rewriting of `Set-Cookie` headers into session cookies.

## Where the code differs from its documentation or from what a caller would expect

- `LSHUniformHashTable::remove(te, L)` and the per-key `remove`: the documented range 0 to L belongs to neither. The mean
  of L codes of 0 or 1 is 1 or 0, and it is 0 for a live element whose key pairs are not distinct.
- `LSHUniformHashTable::add` returns 2, not 3, for a slot that was emptied before: the vector stays.
- `mrf::distance` has no result for a non-empty vector against an empty one: it reads out of range (`at` throws). The
  opposite order has a result.
- `tokenize_and_mrf_features` computes `window_length_default - max_radius` unsigned: a larger radius than the window
  makes it stop before the first window (`WideRadiusStopsAtOnce`).
- `remember_connection` writes the two latency fields of slot 0, whichever slot it found (`Stored`).
- `chat` (src/proxy/seeks_proxy.cpp:1414-1435) closes a socket without `forget_connection`. `DirectCloseMisleads` proves
  that afterwards a client can be handed a socket opened for something else exactly when some slot has the closed socket;
  `StaleSlotMisleads` builds the run for every such state, and `OneInUseIsReached` shows that there is one.
- `block_acl` without a destination can permit a client that no destination is permitted to (`CheckMisleads` gives a list).
  `AccessByCandidates` proves when its answer can be trusted: exactly if it refuses, or one of finitely many destinations
  next to the networks of the list is permitted on some port. `WildcardAccess` and `FirstPermitReaches` are the short
  forms: the first entry whose source matches must permit.
- `remove_chunked_transfer_coding` trusts the announced size. When a body ends before the data of a chunk and the line end
  behind it, it copies and reads beyond the end of the buffer, unless the size is refused for being as large as the whole
  buffer (`CutInDataIsOutside`; `CutOffExample` is the text `3`, line end, `abc`). A body that ends in the line of a chunk
  is refused (`CutInLineIsRefused`).

## Model

| member | source | states |
|---|---|---|
| `RingKey.SumIsModular` | src/dht/DHTKey.cpp:59-154 | The sum and difference that the bit loops are proved against are addition and subtraction modulo 2^N |
| `RingKey.XorIsSum` | src/dht/DHTKey.cpp:66-72 | When no bit is set in both keys, exclusive or is the sum: the shortcut agrees with the ripple loop |
| `RingKey.DHTKey.Plus` | src/dht/DHTKey.cpp:59-110 | operator+ is the ring sum, on both of its paths |
| `RingKey.DHTKey.Minus` | src/dht/DHTKey.cpp:112-154 | operator- is the ring difference |
| `RingKey.DHTKey.Increment` | src/dht/DHTKey.cpp:168-185 | operator++ adds one in place and wraps the largest key to zero |
| `RingKey.DHTKey.Decrement` | src/dht/DHTKey.cpp:187-204 | operator-- subtracts one in place and wraps zero to the largest key |
| `RingKey.DHTKey.Less` | src/dht/DHTKey.cpp:206-216 | operator< is the order of the numbers the keys denote |
| `RingKey.DHTKey.AtMost` | src/dht/DHTKey.cpp:218-228 | operator<= likewise |
| `RingKey.DHTKey.Greater` | src/dht/DHTKey.cpp:230-240 | operator> likewise |
| `RingKey.DHTKey.AtLeast` | src/dht/DHTKey.cpp:242-252 | operator>= likewise |
| `RingKey.DHTKey.Equals` | src/dht/DHTKey.cpp:254-258 | operator== holds of equal keys only |
| `RingKey.DHTKey.Successor` | src/dht/DHTKey.cpp:266-271 | successor(i) adds 2^i on the ring, zero when i is no bit position |
| `RingKey.DHTKey.Predecessor` | src/dht/DHTKey.cpp:273-278 | predecessor(i) subtracts it |
| `RingKey.PredecessorUndoesSuccessor` | src/dht/DHTKey.cpp:266-278 | For every i and key, predecessor(i) undoes successor(i) |
| `RingKey.SubtractionUndoesAddition` | src/dht/DHTKey.cpp:59-154 | Subtracting a key undoes adding it, and the other way round |
| `RingKey.DistanceIsModular` | src/dht/DHTKey.cpp:290-324 | The clockwise distance the intervals are stated with is (x - a) modulo 2^N |
| `RingKey.DHTKey.Between` | src/dht/DHTKey.cpp:290-297 | Holds exactly if x is strictly inside the arc from a to b; for a = b, of all keys but a |
| `RingKey.DHTKey.Incl` | src/dht/DHTKey.cpp:299-306 | Holds exactly if x is on the closed arc; for a = b, of all keys |
| `RingKey.DHTKey.LeftIncl` | src/dht/DHTKey.cpp:308-315 | Holds exactly if x is on the arc without b; for a = b, of all keys |
| `RingKey.DHTKey.RightIncl` | src/dht/DHTKey.cpp:317-324 | Holds exactly if x is on the arc without a; for a = b, of all keys |
| `RingKey.IntervalsMean` | src/dht/DHTKey.cpp:290-324 | The four intervals as inequalities between (x - a) and (b - a) modulo 2^N, and what they are when the ends coincide |
| `RingKey.DistanceRotates` | src/dht/DHTKey.cpp:290-324 | Adding one key to both ends leaves the clockwise distance as it is |
| `RingKey.IntervalsRotate` | src/dht/DHTKey.cpp:290-324 | All four intervals are invariant under adding any key to all three arguments |
| `RingKey.ArcsPartition` | src/dht/DHTKey.cpp:290-324 | For a different from b each key is in exactly one of (a, b] and (b, a]; the same for [a, b) and for closed and open arcs |
| `KeyText.ToRString` | src/dht/DHTKey.cpp:509-520 | The text is the key in lower-case hexadecimal, a digit for each four bits |
| `KeyText.FromRString` | src/dht/DHTKey.cpp:522-538 | Digits of either case fill the key from the top: a writing of n becomes n times 16 for each place left over; more digits than the key holds fail |
| `KeyText.DigitMeans` | src/dht/DHTKey.cpp:522-538 | A character of "0123456789abcdef" or "0123456789ABCDEF" is its index there; any other counts as zero |
| `KeyText.WritesMeans` | src/dht/DHTKey.cpp:522-538 | A text obtained from n by division by sixteen, digits of either case and leading zeros allowed, is read as n |
| `KeyText.DigitsWrite` | src/dht/DHTKey.cpp:522-538 | Every text of hexadecimal digits is such a writing of what is read from it |
| `KeyText.TextWrites` | src/dht/DHTKey.cpp:509-520 | The text of a key is a writing of its number without capital letters |
| `KeyText.TextThenKey` | src/dht/DHTKey.cpp:509-538 | from_rstring(to_rstring(k)) = k for every key |
| `KeyText.KeyThenText` | src/dht/DHTKey.cpp:509-538 | to_rstring(from_rstring(s)) = s for every full-length lower-case numeral |
| `KeyText.Convert` | src/dht/DHTKey.cpp:421-440 | convert reads the bytes of a hash as one big-endian number |
| `KeyText.NumberMeans` | src/dht/DHTKey.cpp:421-440 | A byte more multiplies by 256 and adds it, a hexadecimal digit more by 16 |
| `KeyText.HashText` | src/dht/DHTKey.cpp:421-520 | The text of a converted hash is the hash with two digits a byte |
| `KeyText.ConvertIsBijective` | src/dht/DHTKey.cpp:421-440 | Every key is the conversion of exactly one hash of its length |
| `KeyText.KeysAreDigests` | src/dht/DHTKey.cpp:421-538 | At the source's width of 160 bits every key is the conversion of a digest of twenty bytes, and its text has forty digits |
| `KeyText.TwoDigitsNumber` | src/dht/DHTKey.cpp:421-520 | Two hexadecimal digits for each byte write the same number as the bytes |
| `KeyText.NumberInjective` | src/dht/DHTKey.cpp:421-538 | Numerals of one length that write the same number have the same digits |
| `Chains.StrChain.constructor` | src/lsh/mrf.cpp:135-140 | A new chain holds one token and knows whether that is a skip |
| `Chains.StrChain.AddToken` | src/lsh/mrf.cpp:168-173 | Appends a token and keeps the skip flag right |
| `Chains.StrChain.RemoveToken` | src/lsh/mrf.cpp:175-185 | Removes the i-th token, if there is one, and the skip flag is right again |
| `Chains.StrChain.CheckSkip` | src/lsh/mrf.cpp:187-200 | Afterwards the flag says whether some token is a skip, whatever it said before |
| `Chains.StrChain.RankAlpha` | src/lsh/mrf.cpp:202-207 | A copy with the tokens sorted |
| `Chains.RankedMeans` | src/lsh/mrf.cpp:73-127 | What is hashed of a chain: its tokens as they are when it has a skip, else the same tokens in dictionary order |
| `Chains.DictionaryOrder` | src/lsh/mrf.cpp:202-207 | The order of the sort: the first different character decides, and a text comes before its continuations |
| `Chains.HasSkipMeansContains` | src/lsh/mrf.cpp:187-200 | The flag means that the skip token occurs |
| `Sorting.SortIsCanonical` | src/lsh/mrf.cpp:202-207 | Sorting two vectors gives the same result exactly if they have the same elements with multiplicity |
| `Chains.CanonicalText` | src/lsh/mrf.cpp:107-122 | The text that mrf_hash_c for f160r hashes: ranked tokens with single spaces between |
| `Chains.TextIsCanonical` | src/lsh/mrf.cpp:106-127 | Two chains of words have one text exactly if both have no skip and the same token multiset, or both have skips and are equal |
| `Chains.JoinInjective` | src/lsh/mrf.cpp:112-122 | Words joined by single spaces are determined by the text |
| `Chains.HashChain32` | src/lsh/mrf.cpp:73-104 | The 32-bit hash is the weighted sum of the first ten token hashes of the ranked chain, modulo 2^32 |
| `Chains.WeightedSumMeans` | src/lsh/mrf.cpp:73-104 | Each of the first ten tokens adds its hash by the weight of its position modulo 2^32, a skip the hash 0xdeadbeef |
| `Chains.HashIgnoresOrder` | src/lsh/mrf.cpp:73-104 | Permuting a chain without skips does not change its 32-bit hash |
| `Masks.EmittedOnce` | src/lsh/mrf.h:220-306 | Of a window of m tokens a chain is emitted once if it starts and ends on a token within the radius bounds, else never |
| `Masks.SelectionsAreEmittedOnce` | src/lsh/mrf.h:220-306 | Each subset of the positions that contains 0 and meets the bounds is emitted exactly once |
| `Masks.EmittedAreSelections` | src/lsh/mrf.h:220-306 | Nothing else is emitted |
| `Masks.EmittedBound` | src/lsh/mrf.h:220-306 | A window of m tokens emits at most 2^(m-1) features |
| `Masks.EmittedAll` | src/lsh/mrf.h:220-306 | It emits exactly so many when the bounds admit every radius |
| `Masks.ZeroRadiusEmitsOnce` | src/lsh/mrf.h:220-306 | With both bounds zero only a full window emits, and only the chain of all its tokens |
| `Masks.NothingEmitted` | src/lsh/mrf.h:220-306 | A window in which no chain meets the bounds emits nothing |
| `Masks.FullWindowEmitsMore` | src/lsh/mrf.h:220-306 | A full window emits strictly more features than any shorter one when radius zero is within the bounds |
| `Mrf.StartChain` | src/lsh/mrf.h:229-259 | An empty queue starts the chain of the first token, emitted if its radius is within the bounds |
| `Mrf.GrowChain` | src/lsh/mrf.h:271-298 | From one chain come the one with the next token and one step less radius, and the one with a skip |
| `Mrf.GrowChains` | src/lsh/mrf.h:260-300 | One round turns the chains of one length into those of the next, and adds the features that end on a token |
| `Mrf.BuildFrom` | src/lsh/mrf.h:220-306 | The recursion ends and adds the features of all longer chains, level by level |
| `Mrf.MrfBuild` | src/lsh/mrf.h:205-306 | mrf_build appends the features of the window; tokens.at is always in range |
| `Mrf.SelectionFeature` | src/lsh/mrf.h:205-306 | Each admissible subset of positions has its feature: the hash of the chain of length max + 1 with tokens there and skips elsewhere |
| `Mrf.WindowSelections` | src/lsh/mrf.h:205-306 | The features of a window are, one for one, those of the subsets of positions below the token count and the window length that contain 0 and have a size within the bounds: every such subset has one index, its feature is that of the chain with tokens there and skips elsewhere |
| `Mrf.WindowCount` | src/lsh/mrf.h:205-306 | When the bounds admit every radius there are exactly 2^(m-1) features, m the smaller of token count and window length |
| `Mrf.FeatureIsSelection` | src/lsh/mrf.h:205-306 | Each feature is that of such a subset |
| `Mrf.WindowIsPrefix` | src/lsh/mrf.h:205-306 | Tokens beyond the window do not matter |
| `Tokenizer.Tokenize` | src/lsh/mrf.cpp:276-300 | Appends the tokens of the string to the vector |
| `Tokenizer.TokensMean` | src/lsh/mrf.cpp:276-300 | The tokens from the front: a delimiter is passed over, and the longest run of other characters is the next token |
| `Tokenizer.TokensKeepText` | src/lsh/mrf.cpp:276-300 | Tokens are not empty, have no delimiters, and concatenated are the text without its delimiters |
| `Tokenizer.TokensOfJoin` | src/lsh/mrf.cpp:276-300 | Tokenizing words joined by single spaces gives the words |
| `Extract.BatchFeatures` | src/lsh/mrf.cpp:331-346 | mrf_features adds the features of every window at multiples of the step and sorts the vector |
| `Extract.FeaturesMean` | src/lsh/mrf.cpp:331-346 | The features of one window are, one for one, those of its subsets with a radius from 0 to max_radius |
| `Extract.BatchMeans` | src/lsh/mrf.cpp:331-346 | The batch features of a list are those of its first window and those of the list without one step |
| `Extract.StreamFeatures` | src/lsh/mrf.cpp:348-387 | tokenize_and_mrf_features ends, adds the features of the windows it buffers, and sorts |
| `Extract.StreamMeans` | src/lsh/mrf.cpp:348-387 | The streamed features are those of the first window of tokens, as long as it has any and no fewer than window less max_radius on 32 bits, and those of what is left without one step of the window |
| `Extract.StreamIsBatch` | src/lsh/mrf.cpp:331-387 | With compatible parameters the two produce the same features in the same order; at the early break nothing is left to emit |
| `Extract.WideRadiusStopsAtOnce` | src/lsh/mrf.cpp:348-387 | A largest radius above the window: the streaming extractor finds nothing where the batch one finds something |
| `Extract.LongStepSkips` | src/lsh/mrf.cpp:348-387 | A step beyond the window: the streaming extractor finds more than the batch one |
| `Extract.ExtractorsAgree` | src/lsh/mrf.cpp:331-387 | The two extractors agree on all strings if and only if the parameters are compatible |
| `Query.MrfFeaturesQuery` | src/lsh/mrf.h:170-190 | The features of all suffixes of the token list, with the smaller of the default window length and the number of tokens of the whole list |
| `Query.SuffixCount` | src/lsh/mrf.h:170-190 | Bounds on the number of features for lists shorter and longer than the window |
| `Query.SuffixCountAll` | src/lsh/mrf.h:170-190 | The bounds are reached when the radius bounds admit every radius |
| `Query.QueryCount` | src/lsh/mrf.h:170-190 | n tokens have at most (n - w + 2) * 2^(w-1) - 1 features, w the smaller of n and the default; at most 175 for the default 5 and up to 14 tokens |
| `Query.ZeroRadiusFeatures` | src/lsh/mrf.h:170-190 | With both bounds zero there is exactly one feature for each position where a full window starts |
| `Query.FileFeatures` | src/lsh/qprocess.cpp:52-61 | Each 160-bit feature becomes one pair of its radius and its key |
| `Query.FiledMeans` | src/lsh/qprocess.cpp:52-61 | The key is the number of the digest, the radius is itself, counted down from 2^32 when it is negative |
| `Query.MrfQuery160` | src/lsh/qprocess.cpp:43-62 | The multimap gains the pairs of the features of the query |
| `Query.HasherMeans` | src/lsh/mrf.cpp:106-127 | What is digested: the tokens with single spaces between, sorted unless there is a skip; the radius is that of the chain |
| `Query.HashOneQuery` | src/lsh/qprocess.cpp:70-89 | One query is hashed with its largest radius forced to zero if it has more than 14 tokens and protection is on |
| `Query.GenerateQueryHashes` | src/lsh/qprocess.cpp:64-90 | The multimap gains the hashes of all queries |
| `Query.HashesOfQuery` | src/lsh/qprocess.cpp:64-90 | Up to 14 tokens at most 175 pairs; protected with min_radius 0 and n > 14 tokens exactly n - 4, all at radius 0 |
| `Query.HashesOfAllRadii` | src/lsh/qprocess.cpp:64-90 | With every radius admitted and unprotected, n tokens have exactly 1, 3, 7, 15 hashes for n up to 4 and 16 (n - 3) - 1 beyond |
| `Query.HashesAtZero` | src/lsh/qprocess.cpp:64-90 | With both bounds zero there is one hash up to five tokens and n - 4 beyond, all filed under 0 |
| `Distance.UniqueFeatures` | src/lsh/mrf.cpp:302-324 | Runs of equal features are reduced to one |
| `Distance.DedupOfSorted` | src/lsh/mrf.cpp:302-324 | On a sorted vector that leaves the same elements, strictly increasing |
| `Distance.MergeDistance` | src/lsh/mrf.cpp:680-731 | The distance is the size of the multiset symmetric difference, common_features that of the intersection; it fails for a non-empty vector against an empty one and only then |
| `Distance.MergeRadiance` | src/lsh/mrf.cpp:733-744 | The radiance is common_features squared, on 32 bits, by the distance and epsilon |
| `Distance.RadianceMeans` | src/lsh/mrf.cpp:733-744 | The radiance by distance plus one millionth is the square of the common count modulo 2^32 |
| `Distance.DifferenceFromCommon` | src/lsh/mrf.cpp:716-719 | The lengths without the common features, as the code adds them up, are the symmetric difference |
| `Distance.DifferenceIsSymmetric` | src/lsh/mrf.cpp:680-744 | The distance and the common count do not depend on the order of the arguments |
| `Distance.DifferenceSeparates` | src/lsh/mrf.cpp:680-731 | Only equal sorted vectors are at distance zero |
| `Distance.TriangleInequality` | src/lsh/mrf.cpp:680-731 | The distance satisfies the triangle inequality |
| `Distance.ComparisonOfSets` | src/lsh/mrf.cpp:302-324 | After unique_features the comparison is that of the sets of features |
| `TfIdf.CountDf` | src/lsh/mrf.cpp:611-616 | Counting in the bags as they are gives the frequency in the bags as they were, if they agree on where the feature is present |
| `TfIdf.FindDf` | src/lsh/mrf.cpp:606-618 | From the cache or counted, the document frequency is that of the original bags, and the cache stays right |
| `TfIdf.RateBag` | src/lsh/mrf.cpp:600-631 | One bag becomes its weights by the idf of the original bags, although earlier bags and a part of this one are rewritten; norm is their sum |
| `TfIdf.NormaliseBag` | src/lsh/mrf.cpp:635-640 | Every weight is divided by the sum |
| `TfIdf.ComputeTfIdf` | src/lsh/mrf.cpp:593-642 | Every bag ends as its original weights by the idf of the original bags, divided by their sum unless that is zero |
| `TfIdf.WeightsAreProducts` | src/lsh/mrf.cpp:593-642 | The final weights by the sum of a bag are the products of original weight and log(bags / document frequency), that frequency being the number of bags with a non-zero weight; where the sum is zero the weights are the products |
| `TfIdf.ProportionKept` | src/lsh/mrf.cpp:593-642 | Two features of a bag with one document frequency end in the proportion of their original weights |
| `TfIdf.RatedSumsToOne` | src/lsh/mrf.cpp:593-642 | With positive weights a bag then sums to one, or is all zero; the latter exactly if each of its features is in every bag |
| `TfIdf.IdfSign` | src/lsh/mrf.cpp:620-621 | The idf is positive, and zero exactly for a feature that every bag has |
| `TfIdf.RecountDiffers` | src/lsh/mrf.cpp:606-618 | Without the cache the pass would be wrong: two bags where counting again gives another frequency |
| `Buckets.Bucket.Add` | src/lsh/Bucket.h:158-161 | The element is in the bucket |
| `Buckets.Bucket.RemoveElement` | src/lsh/Bucket.h:204-215 | The element is gone; 1 if it was there, else 0 |
| `Filing.KeyFound` | src/lsh/LSHUniformHashTable.h:545-555 | A slot has a bucket with a control key exactly if something is filed under the pair |
| `Filing.BucketAppended` | src/lsh/LSHUniformHashTable.h:308-358 | A pooled or new bucket at the end of a slot keeps slots, index, pool and contents consistent |
| `Filing.ElementJoined` | src/lsh/LSHUniformHashTable.h:360-366 | So does one more element in a filed bucket |
| `Filing.ElementLeft` | src/lsh/LSHUniformHashTable.h:391-407 | So does one element less when others are left |
| `Filing.BucketEmptied` | src/lsh/LSHUniformHashTable.h:408-428 | So does the last element: the bucket leaves its slot for the pool, and the slot the index if nothing is left |
| `Filing.SizesCountFiles` | src/lsh/LSHUniformHashTable.h:602-614 | The vector sizes along the index add up to the number of key pairs with elements |
| `Filing.FrontFreed` | src/lsh/LSHUniformHashTable.h:592-600 | Freeing a pooled bucket keeps everything consistent |
| `HashTable.LSHUniformHashTable.constructor` | src/lsh/LSHUniformHashTable.h:250-256 | An empty table, consistent |
| `HashTable.LSHUniformHashTable.Find` | src/lsh/LSHUniformHashTable.h:545-555 | The first bucket with the control key, or none if there is none |
| `HashTable.LSHUniformHashTable.Get` | src/lsh/LSHUniformHashTable.h:492-502 | A bucket is found exactly if something is filed under the key pair, and it holds just that; a main key beyond the table has none |
| `HashTable.LSHUniformHashTable.NextBucket` | src/lsh/LSHUniformHashTable.h:583-590 | The oldest pooled bucket with the new key and element, or a new one when the pool is empty |
| `HashTable.LSHUniformHashTable.AppendBucket` | src/lsh/LSHUniformHashTable.h:318-358 | The slot gains a bucket, and enters the index if it had none |
| `HashTable.LSHUniformHashTable.AddAt` | src/lsh/LSHUniformHashTable.h:308-366 | Files the element under one key pair and keeps consistency; 3 for a slot never used, 2 for a new bucket, 1 for a bucket there |
| `HashTable.LSHUniformHashTable.Add` | src/lsh/LSHUniformHashTable.h:284-306 | Files the element under all its key pairs; the result is the mean of the L codes, each known from the table before |
| `HashTable.AddCounts` | src/lsh/LSHUniformHashTable.h:308-366 | The code of one of several additions follows from the table before all of them and from the earlier keys |
| `HashTable.LSHUniformHashTable.RemoveIndex` | src/lsh/LSHUniformHashTable.h:431-443 | The first entry of the slot leaves the index |
| `HashTable.LSHUniformHashTable.DropBucket` | src/lsh/LSHUniformHashTable.h:413-427 | An emptied bucket goes to the pool and the table is consistent again |
| `HashTable.LSHUniformHashTable.RemoveAt` | src/lsh/LSHUniformHashTable.h:391-429 | Removes the element from the files of one key pair and keeps consistency; 1 if it was there |
| `HashTable.LSHUniformHashTable.Remove` | src/lsh/LSHUniformHashTable.h:368-389 | Removes the element under all its key pairs; 1 exactly if the pairs are distinct and all had it |
| `HashTable.LSHUniformHashTable.GetL` | src/lsh/LSHUniformHashTable.h:445-472 | The buckets of the key pairs, in order, those without a bucket left out |
| `HashTable.LSHUniformHashTable.GetLElts` | src/lsh/LSHUniformHashTable.h:474-481 | The union of what is filed under the key pairs |
| `HashTable.LSHUniformHashTable.Lunion` | src/lsh/BucketOperations.h:122-138 | The union of the buckets, for none, one or several |
| `HashTable.LSHUniformHashTable.CountBuckets` | src/lsh/LSHUniformHashTable.h:602-614 | countBuckets is the number of key pairs that have elements |
| `HashTable.LSHUniformHashTable.FreeUnusedAllocatedBuckets` | src/lsh/LSHUniformHashTable.h:592-600 | The pool is empty, the contents are as before |
| `HashTable.LSHUniformHashTable.PeakIsCount` | src/lsh/LSHUniformHashTable.h:308-429 | Buckets allocated are those in use and those pooled, as many as were in use at once since the pool was last freed |
| `Index.AddIndexes` | src/lsh/LSHUniformHashTable.h:284-306 | After an addition the files are the live elements, the new one included, under their keys |
| `Index.RemoveIndexes` | src/lsh/LSHUniformHashTable.h:368-389 | After a removal they are the live elements without it |
| `Index.RunIndexes` | src/lsh/LSHUniformHashTable.h:284-429 | After any run of additions and removals from an empty table the files are the live elements under their keys |
| `Index.IndexIsCanonical` | src/lsh/LSHUniformHashTable.h:284-429 | The live elements determine the files: the history leaves no trace |
| `Index.AddRemoveRestores` | src/lsh/LSHUniformHashTable.h:284-429 | Adding an element that is not live and removing it restores the files, so every answer |
| `Index.LookupIsScan` | src/lsh/LSHUniformHashTable.h:445-481 | A lookup gives exactly the live elements that share a key pair with the query |
| `Counting.CountElements` | src/lsh/BucketOperations.h:59-90 | Every element of the buckets is counted once for each bucket it is in; the total is the number of elements visited |
| `Counting.CountsAddUp` | src/lsh/BucketOperations.h:59-101 | The counts add up to the total, so that dividing by it gives probabilities |
| `Hamming.LSHSystemHamming.StrToBits` | src/lsh/LSHSystemHamming.cpp:162-204 | The bits are those of the first hundred characters, padded with spaces |
| `Hamming.BitsOfCharacter` | src/lsh/LSHSystemHamming.cpp:162-204 | Each character is eight bits of the string, the lowest first, a missing one that of a space |
| `Hamming.LSHSystemHamming.LprojectStr` | src/lsh/LSHSystemHamming.cpp:206-222 | Each projection keeps the bits of one mask |
| `Hamming.LSHSystemHamming.BitHash` | src/lsh/LSHSystemHamming.cpp:224-235 | The sum of the reduced factors at set bits; it does not overflow |
| `Hamming.LSHSystemHamming.LKeysFromStr` | src/lsh/LSHSystemHamming.cpp:336-361 | The L main and control keys of a string, the main keys below the table size |
| `Hamming.NothingSampled` | src/lsh/LSHSystemHamming.cpp:206-269 | A string with none of the bits of a mask has the key pair 0, 0 there |
| `Hamming.OneBitMore` | src/lsh/LSHSystemHamming.cpp:206-269 | Of two strings that differ, among the sampled bits, in one that only the first has, the first has the control key of the second plus the reduced factor of that bit, and the main key likewise modulo the table size |
| `Hamming.LSHSystemHamming.AgreementSharesKey` | src/lsh/LSHSystemHamming.cpp:175-269 | Strings that agree on the bits one mask samples share that key pair |
| `Hamming.SampleMask` | src/lsh/LSHSystemHamming.cpp:131-155 | The draws suffice exactly if they have as many different positions as bits are sampled; then the mask has exactly so many bits, all of them drawn, never bit 0 |
| `HammingTable.LSHUniformHashTableHamming.Add` | src/lsh/LSHUniformHashTable.h:284-306 | The string is live, the table indexes the live strings, and the result is the mean code |
| `HammingTable.LSHUniformHashTableHamming.Remove` | src/lsh/LSHUniformHashTable.h:368-389 | The string is not live; 1 exactly if it was and its key pairs are distinct |
| `HammingTable.LSHUniformHashTableHamming.GetLElts` | src/lsh/LSHUniformHashTable.h:474-481 | Exactly the live strings for which some of their L key pairs equals one of the query; all that agree with it on the bits of some mask are among them |
| `HammingTable.LiveIsFiled` | src/lsh/LSHUniformHashTable.h:284-389 | A live element is filed under each of its key pairs, any other is not |
| `Pool.Gateway.InitializeReusableConnections` | src/proxy/gateway.cpp:110-127 | All slots are closed and clean |
| `Pool.Gateway.MarkConnectionClosed` | src/proxy/gateway.cpp:249-267 | One slot is closed and clean, the others are as before |
| `Pool.Gateway.MarkConnectionUnused` | src/proxy/gateway.cpp:490-518 | The first slot with the socket is idle again; found exactly if there is one |
| `Pool.ReleaseAndForgetMean` | src/proxy/gateway.cpp:283-518 | Releasing makes the first slot with the socket idle and dates it, forgetting resets it, and every other slot stays; without such a slot nothing changes |
| `Pool.Gateway.StoreConnection` | src/proxy/gateway.cpp:157-234 | The socket goes to the first free slot with its destination, or nowhere when there is none; the assertions hold |
| `Pool.StoreMeans` | src/proxy/gateway.cpp:157-234 | Field by field what storing leaves in the first free slot, in slot 0 and in the others |
| `Pool.Gateway.ForgetConnection` | src/proxy/gateway.cpp:283-312 | The first slot with the socket is closed |
| `Pool.Gateway.CloseUnusableConnections` | src/proxy/gateway.cpp:377-426 | Exactly the idle connections that are dead are closed; the count is that of the idle ones left |
| `Pool.DeadMeans` | src/proxy/gateway.cpp:384-421 | Dead means an unusable socket, or a keep-alive time below age and latency together |
| `Pool.Gateway.ClaimConnection` | src/proxy/gateway.cpp:444-474 | The first idle slot whose destination matches is claimed and its socket returned |
| `Pool.SameTextMeans` | src/proxy/gateway.cpp:361 | Hosts match exactly if they have one length and at each position equal characters, or a capital letter against its small one |
| `Pool.HostsClashMeans` | src/proxy/gateway.cpp:343-359 | Gateway and forward hosts stand in the way exactly if both are given and differ so |
| `Pool.MatchMeans` | src/proxy/gateway.cpp:331-362 | A slot that matches has the port, forwarder and forwarding ports asked for, and such a host |
| `Pool.SuchIsOffered` | src/proxy/gateway.cpp:331-362 | Conversely an idle slot with these is offered when neither gateway nor forward hosts differ |
| `PoolRuns.StartIsFine` | src/proxy/gateway.cpp:110-127 | After initialisation the invariant holds, for any number of slots and clients |
| `PoolRuns.StepKeeps` | src/proxy/gateway.cpp:143-518 | Every section of every client keeps the invariant |
| `PoolRuns.RunKeeps` | src/proxy/gateway.cpp:143-518 | So does every interleaving |
| `PoolRuns.OnePlace` | src/proxy/gateway.cpp:143-518 | In every interleaving an open socket is held by exactly one client or idle in exactly one slot |
| `PoolRuns.ClosedOnce` | src/proxy/gateway.cpp:377-426 | What is closed was open, and nobody knows it afterwards: no socket is closed twice |
| `PoolRuns.MatchIsSame` | src/proxy/gateway.cpp:331-362 | Matching implies the same port, forwarder and forwarding ports, and the same host but for case |
| `PoolRuns.ClaimedSocketFits` | src/proxy/gateway.cpp:444-474 | A socket that is handed out was opened for the destination asked for |
| `PoolRuns.ClaimedForSameHost` | src/proxy/gateway.cpp:444-474 | In every reachable state a socket that is handed out was opened for a host of the same length, equal to the one asked for but for the case of letters, and for the same ports and forwarder |
| `PoolRuns.AssertionsHold` | src/proxy/gateway.cpp:159-231 | The pool's own assertions hold wherever a client can run a section |
| `PoolRuns.DirectCloseIsSafe` | src/proxy/seeks_proxy.cpp:1414-1435 | Closing a held socket without forgetting it keeps the invariant if and only if no slot has it |
| `PoolRuns.StaleSlotMisleads` | src/proxy/seeks_proxy.cpp:1414-1435 | From every sound state in which the closed socket is in a slot, whatever its number is opened for next, a run hands it out for what the slot describes |
| `PoolRuns.DirectCloseMisleads` | src/proxy/seeks_proxy.cpp:1414-1435 | Closing a held socket directly lets no run hand out a socket opened for something else if and only if no slot has it |
| `PoolRuns.OneInUseIsReached` | src/proxy/seeks_proxy.cpp:1414-1435 | A state in which it misleads is reached from initialisation in five steps |
| `Chunked.RemoveChunkedTransferCoding` | src/proxy/filters.cpp:882-931 | The front of the buffer and the size are what the chunks of the original bytes say, failures included; the write cursor stays at or before the read cursor, and what is unread is as it was |
| `Chunked.Memmove` | src/proxy/filters.cpp:914-915 | The bytes of the chunk are behind those written before, and what follows the chunk is untouched |
| `Chunked.ScanDigits` | src/proxy/filters.cpp:891-918 | Every hexadecimal writing of n below 2^32, of either case, is read as n when what follows ends the number |
| `Chunked.ScanForms` | src/proxy/filters.cpp:891-918 | So is one behind blanks, a plus sign and a prefix 0x or 0X; behind a minus sign the number counts down from 2^32 |
| `Chunked.ScanNothing` | src/proxy/filters.cpp:891-918 | Blanks followed by neither a sign nor a digit give no number |
| `Chunked.StripChunk` | src/proxy/filters.cpp:897-923 | Reading one chunk whose line starts with any hexadecimal writing of the length of its data puts the data out and goes on with what follows it |
| `Chunked.DechunkUndoesChunking` | src/proxy/filters.cpp:882-931 | De-chunking any chunked body gives the concatenated data, for every split into non-empty chunks, any bytes, and any hexadecimal writings of the sizes (section 3.6.1 of RFC 2616) |
| `Chunked.DechunkBody` | src/proxy/filters.cpp:956-966 | In place, the buffer of a chunked body ends with the concatenated data in front, and the size is that of the data |
| `Chunked.NoSizeFollows` | src/proxy/filters.cpp:891-923 | What is no size is refused in front, and behind at least one chunk it ends the body |
| `Chunked.CutInDataIsOutside` | src/proxy/filters.cpp:897-918 | A body that ends before a chunk and its line end are complete is refused if the announced size reaches that of the buffer, and otherwise read beyond its end |
| `Chunked.CutInLineIsRefused` | src/proxy/filters.cpp:899-903 | A body that ends in the line of a chunk is refused |
| `Chunked.CutOffExample` | src/proxy/filters.cpp:882-931 | The smallest such text: three bytes announced, three there, and then the end |
| `Acl.MaskedOctets` | src/proxy/filters.cpp:225-232 | Two octets agree under a mask of r bits exactly if their first r bits do |
| `Acl.BuildNetmask` | src/proxy/filters.cpp:377-499 | The mask has exactly the first bits set, clipped to the family; a length outside 0 to 128 fails |
| `Acl.LoopComparesPrefix` | src/proxy/filters.cpp:225-234 | With such a mask the octet loop, which stops at the first zero octet, accepts exactly the addresses with the same first m bits |
| `Acl.MatchSockaddr` | src/proxy/filters.cpp:176-235 | Matches exactly if families, port and masked octets agree, IPv4-mapped addresses included |
| `Acl.MappedMeans` | src/proxy/filters.cpp:197-212 | An address is IPv4-mapped exactly if it has sixteen octets, ten of zero and then two of 255 |
| `Acl.MatchIsPrefix` | src/proxy/filters.cpp:176-235 | A network with prefix length m matches exactly the addresses with its first m bits, an IPv4 address being its mapped form, and its port if asked |
| `Acl.PrefixBehindMapped` | src/proxy/filters.cpp:205-212 | Comparing the last four octets of a mapped network by their part of the mask is comparing m bits of the mapped form |
| `Acl.BlockAcl` | src/proxy/filters.cpp:255-316 | Permitted exactly if there is no list, or the first entry that applies permits; without a destination, if any entry of the client permits |
| `Acl.PermitImpliesAccess` | src/proxy/filters.cpp:255-316 | Who is permitted to some destination passes the check without one |
| `Acl.AccessWithoutDestination` | src/proxy/filters.cpp:255-316 | Behind any entry that denies a client everything, entries that permit it make the check without a destination pass, and no destination is permitted |
| `Access.CheckMisleads` | src/proxy/filters.cpp:255-316 | A list of two entries with which every IPv4 client passes the check without a destination and reaches none |
| `Access.WildcardAccess` | src/proxy/filters.cpp:255-316 | When no entry restricts the destination, a client reaches something exactly if the first entry whose source matches it permits |
| `Access.FirstPermitReaches` | src/proxy/filters.cpp:255-316 | With restricted destinations, a permitting first entry gives access to its own network |
| `Access.EntryIsPrefix` | src/proxy/filters.cpp:176-309 | In each family the destinations of an entry are a prefix, or none, whatever family its network was given in |
| `Access.SomeCandidate` | src/proxy/filters.cpp:255-316 | For every destination there is a candidate that all entries treat alike: the zero address, a network's address, or that with one bit turned over |
| `Access.AccessByCandidates` | src/proxy/filters.cpp:255-316 | A client reaches something exactly if one of the candidates is permitted on some port; so the check without a destination is right exactly if it refuses or a candidate is permitted |
| `Cookie.Strncmpic` | src/utils/miscutil.cpp:159-175 | Zero exactly if the first n characters are equal but for case, or the texts end together before |
| `Cookie.StringMove` | src/proxy/parsers.cpp:671-677 | The rest of the text is moved down; its assertion dst < src holds at every call |
| `Cookie.NextTag` | src/proxy/parsers.cpp:3711-3728 | The next tag starts behind the semicolon and the blanks after it, or at the end |
| `Cookie.TagGoes` | src/proxy/parsers.cpp:3735-3795 | A tag goes exactly if it is an expiration date that is not empty and cannot be read or is not yet past |
| `Cookie.RewriteTags` | src/proxy/parsers.cpp:3708-3820 | In place, the loop ends with exactly the tags that stay, in order, and does not touch what is before |
| `Cookie.RewriteMeans` | src/proxy/parsers.cpp:3708-3820 | The first tag ends behind its semicolon and the blanks there; it is left out exactly if the text is longer than "expires=", starts with it in whatever case, and what follows gives no date or one that is not past; the rest is rewritten alike |
| `Cookie.ServerSetCookie` | src/proxy/parsers.cpp:3683-3830 | The header is dropped, rewritten from its value on, or left as it is, by the two action flags |
| `Cookie.ValueStartMeans` | src/proxy/parsers.cpp:3700-3706 | The value starts at the first character from the eleventh on that is no blank |
| `Cookie.RewriteIsSession` | src/proxy/parsers.cpp:3708-3820 | If dates are read from the tag alone, the new value consists of exactly the tags that stay, and rewriting it again changes nothing |
| `Cookie.OthersStay` | src/proxy/parsers.cpp:3708-3820 | Whatever dates are read from, all tags that are no expiration dates stay, in order |
| `Cookie.TagsMakeText` | src/proxy/parsers.cpp:3711-3728 | The tags of a text put together are the text |
| `Cookie.TagsFoundAgain` | src/proxy/parsers.cpp:3711-3728 | Tags that do not run into one another are found again after they are put together |
| `Cookie.DropsByTag` | src/proxy/parsers.cpp:3735-3795 | If dates are read from the tag alone, so is the decision about a tag |

## Left out

- Hash functions, digests, random draws, clocks, socket states, the logarithm and the parsing of dates are parameters.
- `initG` ends with probability one only; `SampleMask` states which runs of draws suffice, and what the mask then is.
- `DHTKey::serialize` and `unserialize`, `qprocess::compile_query`: they rest on code that is not part of this model. In
  `generate_query_hashes` the tokenizer of `miscutil` is taken to split as `mrf::tokenize` does.
- The string overloads of `mrf::radiance`: they pass unsorted vectors to the merge.
- `str_chain::intersect` and `findConstIterator`: the first discards its sorted copies, the second never initialises its
  iterator.
- The inversion of the count map in `LunionWithProbabilities`: elements of equal probability collapse.
- `HashTable.LSHUniformHashTable.GetL`: requires no bound on the keys, but the arrays of size L that the source fills with
  `_Ld` entries are taken to be as long as the sequence of keys; `HammingTable` requires L to be `_Ld`.
- `Query.MrfFeaturesQuery`: default window lengths above 2^31, whose radius is negative as an int, are left out.
- The vectors of buckets in the slots of the table are sequences, as each is reached from its slot only.
- `Distance.MergeRadiance`: rounding of floating point numbers is not modelled, here and in `TfIdf`, where weights are reals.
- `TfIdf.ComputeTfIdf`: requires distinct bag objects and a non-zero weight somewhere for every feature, since a frequency
  of zero would be divided by.
- The waiting and timeout arithmetic of the pool, memory exhaustion in `remember_connection`, and the loop over connection
  attempts; which idle connections are dead is arbitrary in `PoolRuns`.
- `PoolRuns.ClaimedSocketFits`: says nothing of gateway and forward hosts, since the source does not tell a missing host
  from a given one (src/proxy/gateway.cpp:343-359).
- `Chunked.DechunkUndoesChunking`: an extension may have any bytes but nul and a line end; section 3.6.1 of RFC 2616 also
  allows line ends inside quoted strings of an extension, where the source takes the first line end for the end of the
  line. Sizes are below 2^32. `Scan` reduces longer numbers modulo 2^32, which C leaves open.
- `Access.AccessByCandidates`: the destinations of the list must be masks that `acl_addr` builds from a prefix length.
- `Acl.BuildNetmask`: the parsing of the address text and host name resolution are not part of this model, nor is the
  variant of the code without HAVE_RFC2553.
- `Cookie.RewriteIsSession`: characters beyond ASCII are neither blanks nor letters with case.
- Log messages, CGI pages, templates, configuration, SOCKS negotiation, compression, and plugins.
