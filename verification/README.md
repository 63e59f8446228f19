# STLQ verification model

A Dafny model of the parts of STLQ where a wrong step would silently corrupt data or results: the
canonical Huffman coder and the cluster coefficient codec it serves, the quantiser that feeds them,
the reconstruction of linkage clusters and the several fast ways of computing norms, inner products
and distances from it, the external bucketing of records with few open files, and the top-k search
with its metrics. To verify the whole project with Dafny 4.11:

    dafny verify dfyconfig.toml

Integer widths are written out where the code depends on them (32-bit code values and counters,
16-bit alphabets, 8-bit lengths, int8 coefficients). Floating-point quantities are exact reals, and
a distance is ordered together with an id, so the order is total.

## Structure

| files | subject |
|---|---|
| `Arith`, `Sorting`, `Vectors` | powers of two, Fibonacci numbers and 32-bit values; sorting by a strict total order; real vectors |
| `HuffmanForest`, `HuffmanOptimality`, `HuffmanDepth`, `HuffmanLengths`, `HuffmanBuild`, `HuffmanExtremes` | the greedy merge: determinism, optimality, Kraft equality, the Fibonacci bound, the arena and priority queue, and where exactly optimality and completeness end |
| `BitIo`, `CanonicalCode`, `CanonicalDecode`, `CanonicalModel` | bit streams in bytes, canonical code tables and decoding |
| `ClusterCodec`, `ClusterCodecRun`, `CodecThreshold` | the coefficient codec on values, as it runs, and exactly when it is lossless |
| `Quantizer`, `QuantizerMeaning`, `ClusterQuantizer`, `QuantizerAlphabet` | one layer of one group, what its parts mean for the samples, a whole cluster up to the coded streams, and which alphabets hold what is emitted |
| `Linkage`, `Layout`, `StoredCoeffs`, `LinkageNorm`, `QueryAdc`, `Orphans`, `PathDp` | clusters, where their entries are stored and that what is read is what was quantised, and their reconstruction, Gram-table norms, query distances, which nodes they are exact for, the memoised per-cluster DP |
| `GidBuckets`, `ReconBuckets` | bounded open files with LRU eviction; per-thread part files under any schedule |
| `ClusterSelect`, `TopK`, `Ivf` | the probe selection heap, bounded-heap top-k, inverted lists against the full scan |
| `EvalMetrics`, `RecallCurve`, `Rerank`, `GraphQuality` | nDCG and recall, recall curves, re-ranking, subtree sizes |

Most algorithms appear twice: as a method in the source's own form (arrays and fields updated in
loops), and as a function it is proved equal to, about which the lemmas speak. Members whose names
end in `Means`, `Is` or `Are` say what such a function is in terms of the data alone, without it.

## What the proofs found

- The coder is exact up to a threshold. Every list of n symbols survives coding exactly when n is
  below Fib(34) = 5702887 or the alphabet has at most 32 symbols (`RoundTripThreshold`). Otherwise a
  32-bit code can arise; it is written without error, but the end of its block wraps to 0 in the
  decoder and the symbol never matches. From Fib(35) = 9227465 symbols and 34 letters on a 33-bit code
  can arise, which `WriteBits` refuses (`WriteThreshold`). What counts is the length of one stream, not
  the size of the cluster, and how many symbols of the alphabet int8 codes can have at all, here called
  letters: `ClusterThreshold` states the condition for whole matrices.
- The merged weights are 32-bit sums, yet the code is optimal for every table of 32-bit counts that
  sums below 2^33: a wrap can change the tree only while four trees are queued. From 2^33 on some table
  of four or more symbols is coded wastefully, whatever the total (`OptimalityThreshold`).
- Every table with at most 256 used symbols is coded completely. For every larger number there is a
  table with a 256-bit code, whose 8-bit length reads as unused (`CodedThreshold`).
- The encoder's base is the quantiser's largest code, the decoder's is half the alphabet. They agree
  for the alphabets the encoder derives; a coefficient is restored exactly when they agree modulo 256.
- An empty list of bits per layer makes the quantiser use 7 bits per layer while the encoder takes
  the largest code to be 0. What the quantiser emits is then codable for certain only with an alphabet
  of 256 (`AlwaysCodableIff`). A comment in `src/coeff/coeff_cluster_quantizer.cpp:21` says Q=127 for
  an empty list; the code gives Q=63. The model follows the code.
- A linkage node with parent 0 is read in three ways: as root and linkage part together (export and
  self dot), as its linkage part alone (norms), and as a root alone (the per-cluster DP).
  `AdcOfNode` and `ClampOfNode` give the exact effect on distances and on the clamp of negative errors.
  `ExactIffRooted` and `ClampDeadIffRooted` say what a caller can check: a node is safe whatever is
  stored exactly when its parent path ends in a true root.
- The bucket writer truncates a file when it first opens it, and never opens a bucket without records;
  the part files of the per-thread writer are only appended to. Their one caller empties the directory
  first (`cmd/report_linkage_int8_recon_mse.cpp:1545`) but ignores the error code of doing so, so old
  files can be met only if that call fails. `LoadRecoversIff` and `ScheduleRoundTrip` say exactly which
  old files then spoil a load.
- A search of fewer lists that finds too few candidates falls back to the full scan and may then beat
  a search of more lists (`MoreProbesIff`).
- The recorded root components miss a real node exactly when a non-zero parent is out of range.

## Model

| member | source | states |
|---|---|---|
| `HuffmanForest.MergeKeepsQueue` | src/coeff/huffman_canonical.cpp:20-25 | one turn of the merge loop joins the two trees of least weight, ties by least symbol, under their 32-bit sum and leaves the others; the queue ascends strictly in this order, so the pops are determined |
| `HuffmanForest.LeavesAscend` | src/coeff/huffman_canonical.cpp:116-120 | the initial queue: a leaf for every used symbol, ascending by count, ties by symbol |
| `HuffmanForest.AnyHeap` | src/coeff/huffman_canonical.cpp:131-136 | joining the first two trees by weight, ties by least symbol, in any way of finding them, builds one tree, that of the merge |
| `HuffmanForest.GreedySum` | src/coeff/huffman_canonical.cpp:131-136 | every sum over the used symbols is the same over the final tree as over the initial queue: no symbol is lost or doubled |
| `HuffmanForest.AssignedCorrect` | src/coeff/huffman_canonical.cpp:27-35 | the lengths written are exactly the leaf depths, and no other entry changes |
| `HuffmanBuild.Push` | src/coeff/huffman_canonical.cpp:131-136 | the queue stays the arena's forest in pop order with the new node inserted |
| `HuffmanBuild.CollectLeaves` | src/coeff/huffman_canonical.cpp:116-120 | one leaf per used symbol, queued in key order |
| `HuffmanBuild.MergeTwo` | src/coeff/huffman_canonical.cpp:132-135 | the two least nodes are replaced by their parent, whose stored weight is the 32-bit sum |
| `HuffmanBuild.MergeAll` | src/coeff/huffman_canonical.cpp:112-138 | the arena ends with (leaves + queue - 1) nodes, so the 2*S reserved are never outgrown, and its root is the greedy tree |
| `HuffmanBuild.AssignLengths` | src/coeff/huffman_canonical.cpp:27-35 | in place: writes the depth of every leaf, as an 8-bit value, and nothing else |
| `HuffmanBuild.HuffmanCodeLengths` | src/coeff/huffman_canonical.cpp:107-141 | arena, priority queue and recursion together return the depths in the tree any priority queue builds, one bit for a single symbol, for the low 16 bits of the number of counts |
| `HuffmanLengths.TableMeans` | src/coeff/huffman_canonical.cpp:107-141 | as many entries as the 16-bit size; one bit for a single used symbol; for more, the depths in the tree that joining the two least, ties by symbol, builds |
| `HuffmanLengths.Optimality` | src/coeff/huffman_canonical.cpp:107-141 | for 32-bit counts that sum below 2^33, or with at most three used symbols, the lengths are those of a prefix code and no assignment that meets Kraft's inequality costs fewer bits: a merged weight may wrap only when three trees are left |
| `HuffmanLengths.KraftEquality` | src/coeff/huffman_canonical.cpp:131-139 | for two or more used symbols and a tree of at most 255 levels the Kraft sum is exactly one |
| `HuffmanLengths.CompleteIffShallow` | src/coeff/huffman_canonical.cpp:27-35 | for any 32-bit counts with two or more used symbols the Kraft sum is one if and only if the tree has at most 255 levels: a depth of 256 or more loses its high bits as an 8-bit length |
| `HuffmanLengths.ShallowTables` | src/coeff/huffman_canonical.cpp:131-139 | a sum below 2^33, or at most 256 used symbols, keep the tree at 255 levels or fewer |
| `HuffmanLengths.UsedIffCoded` | src/coeff/huffman_canonical.cpp:116-139 | for a tree of at most 255 levels a symbol gets a positive length exactly when its frequency is positive |
| `HuffmanLengths.DepthBound` | src/coeff/huffman_canonical.cpp:131-136 | for counts that sum below 2^33, or with at most three used symbols, a code of length L needs a total of at least Fib(L+2), and no code exceeds 47 bits |
| `HuffmanLengths.ShortCodes` | src/coeff/huffman_canonical.cpp:131-136 | below Fib(34) = 5702887 counts every length is at most 31 |
| `HuffmanExtremes.DepthIsReached` | src/coeff/huffman_canonical.cpp:131-136 | the bound is tight: for every depth L from 3 to 47 there is a table of total Fib(L+2), and of every larger total its last count has room for, with a code of length L, on any L+1 consecutive symbols of any alphabet |
| `HuffmanExtremes.MovedGreedy` | src/coeff/huffman_canonical.cpp:20-25 | the merge does not depend on where in the alphabet the symbols lie: moving all symbols by one offset moves the tree and changes nothing else |
| `HuffmanExtremes.CodedThreshold` | src/coeff/huffman_canonical.cpp:27-35 | every table of 32-bit counts with k used symbols gives exactly these a code if and only if k is at most 256 |
| `HuffmanExtremes.OptimalityThreshold` | src/coeff/huffman_canonical.cpp:131-136 | every table of a given size and total, made of 32-bit counts, is coded optimally if and only if the total is below 2^33 or the table has at most three symbols |
| `CanonicalModel.HuffmanCanonicalModel.BuildDerivedTables` | src/coeff/huffman_canonical.cpp:39-87 | each error case, and otherwise every table field equals its definition on the length table |
| `CanonicalModel.HuffmanCanonicalModel.ComputeMaxLen` | src/coeff/huffman_canonical.cpp:43-46 | the largest code length |
| `CanonicalModel.HuffmanCanonicalModel.CountLengths` | src/coeff/huffman_canonical.cpp:49-52 | codes per length, unused symbols not counted |
| `CanonicalModel.HuffmanCanonicalModel.ComputeFirstCodes` | src/coeff/huffman_canonical.cpp:54-59 | first codes of every length in 32-bit arithmetic |
| `CanonicalModel.HuffmanCanonicalModel.SortSymbols` | src/coeff/huffman_canonical.cpp:61-70 | sorting by (length, symbol) lists the symbols of each length in order, block after block |
| `CanonicalModel.HuffmanCanonicalModel.ComputeFirstSyms` | src/coeff/huffman_canonical.cpp:72-77 | where each length's block starts in the sorted list |
| `CanonicalModel.HuffmanCanonicalModel.AssignCodes` | src/coeff/huffman_canonical.cpp:79-86 | every used symbol gets first code plus its rank among equal lengths, the rule of section 3.2.2 of RFC 1951 |
| `CanonicalModel.HuffmanCanonicalModel.EncodeSymbol` | include/stlq/coeff/huffman_canonical.h:48-54 | appends the codeword; refuses a symbol without a code or with one of more than 32 bits, and then writes nothing |
| `CanonicalModel.HuffmanCanonicalModel.Lookup` | src/coeff/huffman_canonical.cpp:93-99 | the range test finds the symbol of that length and value, or none |
| `CanonicalModel.HuffmanCanonicalModel.DecodeSymbol` | src/coeff/huffman_canonical.cpp:89-105 | returns the matching symbol and consumes exactly its length; 0 after max_len bits when nothing matches |
| `CanonicalModel.BuildHuffmanCanonicalModel` | src/coeff/huffman_canonical.cpp:143-149 | lengths then tables, with the error of an empty alphabet or empty table |
| `CanonicalModel.TableIsKraft` | src/coeff/huffman_canonical.cpp:107-149 | a table with a used symbol and a tree of at most 255 levels gives lengths that meet Kraft's inequality, with equality from two symbols on |
| `CanonicalCode.FirstExact` | src/coeff/huffman_canonical.cpp:54-59 | for lengths of at most 32 bits no first code wraps, and up to 31 bits no block end does |
| `CanonicalCode.FirstModulo` | src/coeff/huffman_canonical.cpp:54-59 | for any lengths the stored first code is the exact one modulo 2^32 |
| `CanonicalCode.CodeIsRoomBefore` | src/coeff/huffman_canonical.cpp:54-86 | the code of a symbol is the room taken by all codes before it, in order of length and symbol, in units of its own length, modulo 2^32: the canonical rule of section 3.2.2 of RFC 1951 in one sum |
| `CanonicalDecode.DecodeCodeword` | src/coeff/huffman_canonical.cpp:89-105 | a stream that starts with a symbol's codeword decodes to it and consumes its length |
| `CanonicalDecode.PrefixFree` | src/coeff/huffman_canonical.cpp:79-86 | no codeword is a prefix of another, whenever the codes fit the 32 bits that can be written |
| `CanonicalDecode.CompleteIffKraftEq` | src/coeff/huffman_canonical.cpp:102-104 | the fall-through is unreachable on every long enough stream exactly when the Kraft sum is one |
| `CanonicalDecode.LongCodeLost` | src/coeff/huffman_canonical.cpp:90-95 | a complete code of 32 bits or more has at least two longest symbols, and none of them but symbol 0 ever decodes, because the end of their block wraps to 0 |
| `CanonicalDecode.DecodesAllIff` | src/coeff/huffman_canonical.cpp:90-95 | for complete codes every symbol decodes exactly when no code exceeds 31 bits |
| `CanonicalDecode.StreamRoundTrip` | src/coeff/huffman_canonical.cpp:89-105 | decoding an encoded stream, whatever follows it, gives the symbols back and stops at its end |
| `BitIo.BitWriter.constructor` | include/stlq/coeff/bit_io.h:46-48 | starts with an empty stream |
| `BitIo.BitWriter.Reset` | include/stlq/coeff/bit_io.h:12-16 | back to an empty stream |
| `BitIo.BitWriter.WriteBits` | include/stlq/coeff/bit_io.h:18-33 | appends the low bits of a value most significant first, across byte boundaries; refuses counts outside 0..32 and then changes nothing |
| `BitIo.BitWriter.PushBit` | include/stlq/coeff/bit_io.h:23-32 | one bit, moving a full byte to the buffer; pending bits always stay below a byte |
| `BitIo.BitWriter.Finish` | include/stlq/coeff/bit_io.h:35-43 | the bytes hold exactly the stream, padded with fewer than eight zero bits |
| `BitIo.BitReader.constructor` | include/stlq/coeff/bit_io.h:53-54 | reads from the first bit of the bytes |
| `BitIo.BitReader.ReadBit` | include/stlq/coeff/bit_io.h:56-69 | the next bit of the byte string, most significant first; past the end it is arbitrary |
| `BitIo.ByteDigit` | include/stlq/coeff/bit_io.h:23-32 | bit p of a byte string is the one of weight 2^(7 - p mod 8) in byte p / 8 |
| `ClusterCodecRun.SplitRootLinkage` | src/coeff/coeff_cluster_codec.cpp:30-39 | the two index lists in ascending order, every index in exactly one: linkage where the mask is not zero |
| `ClusterCodecRun.BuildFreqOneLayer` | src/coeff/coeff_cluster_codec.cpp:59-72 | 32-bit counts of one layer's symbols |
| `ClusterCodecRun.BuildFreqAllLayers` | src/coeff/coeff_cluster_codec.cpp:41-57 | 32-bit counts of all layers' symbols |
| `ClusterCodec.HistogramCounts` | src/coeff/coeff_cluster_codec.cpp:41-72 | the table holds the number of occurrences of every symbol, in 32 bits |
| `ClusterCodec.StreamOrder` | src/coeff/coeff_cluster_codec.cpp:74-92 | a group's stream holds layer after layer and in each layer its members in order |
| `ClusterCodec.CodesOfBits` | src/coeff/coeff_cluster_codec.cpp:14-16 | a layer of n bits has 2^n - 1 codes, as many above zero as below |
| `ClusterCodec.AlphabetHolds` | src/coeff/coeff_cluster_codec.cpp:260-269 | without a configured size the alphabet holds exactly the codes of the widest layer, of size 256 exactly the int8 values; of any other size symbol 0 is the lowest code of the widest layer |
| `ClusterCodec.DecoderMiddle` | src/coeff/coeff_cluster_codec.cpp:334-344 | the decoder takes the middle symbol of the alphabet for zero, the upper one of two |
| `ClusterCodecRun.EncodeOneLayer` | src/coeff/coeff_cluster_codec.cpp:92-105 | the payload starts with the layer's codewords; fails at the first symbol that cannot be written |
| `ClusterCodecRun.EncodeAllLayers` | src/coeff/coeff_cluster_codec.cpp:74-90 | the payload starts with all layers' codewords; fails at the first symbol that cannot be written |
| `ClusterCodecRun.EncodeGroup` | src/coeff/coeff_cluster_codec.cpp:271-305 | models and payloads that carry the group's symbols; the only possible error is a code of more than 32 bits, and it occurs exactly then |
| `ClusterCodecRun.CompressClusterCoeffsFromQ` | src/coeff/coeff_cluster_codec.cpp:235-310 | each size error, whatever the bits and coefficients; the write error exactly when some stream needs a code of more than 32 bits; otherwise both groups carried and all scalars attached, for layers of 1 to 31 bits |
| `ClusterCodecRun.DecodeOneLayer` | src/coeff/coeff_cluster_codec.cpp:125-138 | the decoded symbols land in the layer's cells, other cells unchanged |
| `ClusterCodecRun.DecodeAllLayers` | src/coeff/coeff_cluster_codec.cpp:107-123 | the decoded symbols land in the group's cells layer by layer |
| `ClusterCodecRun.DecodeGroup` | src/coeff/coeff_cluster_codec.cpp:326-348 | one payload for all layers or one per layer |
| `ClusterCodecRun.DecodeClusterCoeffs` | src/coeff/coeff_cluster_codec.cpp:312-352 | zeros, then the root group, then the linkage group; only a size mismatch fails |
| `ClusterCodec.ListedTable` | src/coeff/coeff_cluster_codec.cpp:278-286 | a coded list is never empty, so its model is never empty and every coded symbol has a positive length |
| `ClusterCodec.WritableListTable` | src/coeff/coeff_cluster_codec.cpp:282-289 | below Fib(35) symbols, or with at most 33 different ones, no code exceeds the 32 bits the writer accepts |
| `ClusterCodec.LettersUsed` | src/coeff/coeff_cluster_codec.cpp:24-26 | a stream of int8 codes uses at most as many different symbols as there are letters, the symbols of the alphabet within int8 range of the base |
| `ClusterCodec.ClusterRoundTrip` | src/coeff/coeff_cluster_codec.cpp:235-352 | decoding what the streams carry restores every coefficient up to the difference of the two bases, for every mask and granularity |
| `ClusterCodec.CodecRoundTrip` | src/coeff/coeff_cluster_codec.cpp:235-352 | with agreeing bases the matrix comes back unchanged when there are at most 32 letters or every stream has fewer than Fib(34) symbols |
| `ClusterCodec.BasesAgree` | src/coeff/coeff_cluster_codec.cpp:269 | a coefficient is restored exactly when the bases agree modulo 256 |
| `ClusterCodec.DerivedBases` | src/coeff/coeff_cluster_codec.cpp:260-269 | they agree for every alphabet the encoder derives itself, whatever the bits per layer |
| `ClusterCodecRun.CompressThenDecode` | src/coeff/coeff_cluster_codec.cpp:235-352 | compressing and decoding, on bytes, returns the same matrix, whenever the bases agree modulo 256 and there are at most 32 letters or every stream has fewer than Fib(34) symbols |
| `CodecThreshold.LongListLost` | src/coeff/coeff_cluster_codec.cpp:235-352 | for every symbol count from Fib(34) on and any 33 consecutive symbols of an alphabet there is a list over them that is written without error and whose first symbol never decodes |
| `CodecThreshold.RoundTripThreshold` | src/coeff/coeff_cluster_codec.cpp:235-352 | every list of n symbols survives coding if and only if n is below Fib(34) = 5702887 or the alphabet has at most 32 symbols |
| `CodecThreshold.WriteThreshold` | include/stlq/coeff/bit_io.h:18-21 | every list of n symbols can be written if and only if n is below Fib(35) = 9227465 or the alphabet has at most 33 symbols |
| `CodecThreshold.ClusterThreshold` | src/coeff/coeff_cluster_codec.cpp:235-352 | for any shape, mask, granularity, alphabet and base, every codable int8 matrix comes back if and only if it is empty, or there are no letters, or the bases agree modulo 256 and there are at most 32 letters or every coded stream has fewer than Fib(34) symbols |
| `Quantizer.CodeIsNearest` | src/coeff/coeff_cluster_quantizer.cpp:253-256 | no code in range is nearer to a/delta than the one emitted |
| `QuantizerMeaning.RoundAwayIs` | src/coeff/coeff_cluster_quantizer.cpp:147-150 | the magnitudes compared for clipping round to the nearest integer, halves to the one further from zero |
| `QuantizerMeaning.RoundEvenIs` | src/coeff/coeff_cluster_quantizer.cpp:198-206 | codes round to the nearest integer, halves to the even one |
| `Quantizer.FitIsLeast` | src/coeff/coeff_cluster_quantizer.cpp:201-234 | the cost formula is the least weighted squared error over all scales, reached at Saq/Sq2 |
| `Quantizer.QuantileMonotone` | src/coeff/coeff_cluster_quantizer.cpp:62-75 | type-7 quantiles lie within the data and grow with p |
| `Quantizer.WeightedQuantileMonotone` | src/coeff/coeff_cluster_quantizer.cpp:77-91 | the weighted quantile is the first sample whose running weight reaches its share of the total; it lies within the data and grows with p |
| `Quantizer.PercentileMeans` | src/coeff/coeff_cluster_quantizer.cpp:62-91 | what a percentile p is: from 100 up the largest magnitude; weighted, the first whose running weight reaches p/100 of the total; otherwise the point p/100 of the way along the sorted magnitudes, interpolated between its neighbours |
| `Quantizer.PreparedHolds` | src/coeff/coeff_cluster_quantizer.cpp:153-170 | the sorted magnitudes ascend and are those of the samples |
| `QuantizerMeaning.SortedSamples` | src/coeff/coeff_cluster_quantizer.cpp:151-168 | entry k of the sorted magnitudes belongs to some sample, each sample once, and the running weights add up the positive weights in the same order |
| `Quantizer.CollectSamples` | src/coeff/coeff_cluster_quantizer.cpp:135-170 | collects samples, weights (1 without a table, the entry of the code, 0 for code 0), sorted magnitudes, running weights and the largest rounded magnitude in one pass |
| `Quantizer.Measure` | src/coeff/coeff_cluster_quantizer.cpp:203-227 | the three moments and the number of clipped samples |
| `QuantizerMeaning.AcceptedMeans` | src/coeff/coeff_cluster_quantizer.cpp:184-227 | a candidate is accepted exactly when its amplitude is positive, no sample rounds beyond it unless clipping is allowed, and some weighed sample gets a code other than 0 |
| `Quantizer.TryCandidate` | src/coeff/coeff_cluster_quantizer.cpp:190-244 | one turn keeps the first of the cheapest accepted candidates; the chosen step times the largest code is the p-th percentile of the sorted magnitudes |
| `Quantizer.ChooseBest` | src/coeff/coeff_cluster_quantizer.cpp:183-244 | the first of the cheapest accepted candidates |
| `Quantizer.QuantiserOptimum` | src/coeff/coeff_cluster_quantizer.cpp:183-258 | the chosen codes and scale have exactly the best cost, and no accepted candidate does better at any scale |
| `Quantizer.QuantizeOneGroupOneLayer` | src/coeff/coeff_cluster_quantizer.cpp:112-259 | writes the group's codes of the best candidate (step 1 when none is accepted) and no other cell |
| `QuantizerMeaning.LayerMeans` | src/coeff/coeff_cluster_quantizer.cpp:171-255 | what is stored for a layer: the defaults if no candidate is accepted, otherwise a listed percentile, its step, the share of samples that rounded out of range, and as scale the fitted one or, without fitting, the step itself |
| `Quantizer.LayerOptimum` | src/coeff/coeff_cluster_quantizer.cpp:183-258 | what is stored for a layer beats every accepted candidate at every scale |
| `Quantizer.CodesInRange` | src/coeff/coeff_cluster_quantizer.cpp:251-258 | every emitted code lies in [-Q, Q] |
| `ClusterQuantizer.ExpandedAt` | src/coeff/coeff_cluster_quantizer.cpp:18-45 | all six cases say the same: layer l takes entry l, or the last one, or 7 |
| `ClusterQuantizer.QuantizeClusterCoeffsSplitRootLinkage` | src/coeff/coeff_cluster_quantizer.cpp:269-319 | size errors, bad bit counts, and otherwise every layer of both groups quantised as specified |
| `ClusterQuantizer.QuantisedIsCodable` | src/coeff/coeff_cluster_codec.cpp:182-192 | when the encoder's alphabet covers every layer's range, each emitted code has a symbol |
| `QuantizerAlphabet.ExtremeEmitted` | src/coeff/coeff_cluster_quantizer.cpp:183-257 | samples that are already a layer's largest codes are emitted as they are, under any percentiles, weights, masks and filters |
| `QuantizerAlphabet.AlwaysCodableIff` | src/coeff/coeff_cluster_codec.cpp:182-192 | whatever the samples, everything the quantiser emits can be coded if and only if the alphabet is the whole of int8, or the bit list is not empty and the base plus each layer's largest code is below its size; an empty list meets this only with 256 symbols |
| `QuantizerAlphabet.CoversIff` | src/coeff/coeff_cluster_codec.cpp:182-192 | with no more entries than layers that condition is: 256 symbols, or a non-empty list and 2*Qmax+1 at most the alphabet size |
| `ClusterQuantizer.QuantizeAndCompressClusterCoeffs` | src/coeff/coeff_cluster_codec.cpp:142-233 | errors of the quantiser, a layer outside 2 to 8 bits among them; otherwise streams that carry exactly the quantised matrix, for every alphabet that covers the layers; always succeeds when there are at most 33 letters or every stream has fewer than Fib(35) symbols |
| `LinkageNorm.LinkageNormProviderLookup.constructor` | src/eval/linkage_norm_provider.cpp:41-63 | the three tables are all pairwise inner products |
| `Layout.CodeRead` | cmd/export_stlq_query_adc.cpp:265-272 | the codes of a node are a row of the table, virtual and real nodes in tables of their own |
| `Layout.CoefRead` | cmd/export_stlq_query_adc.cpp:259-263 | the code of layer l of a node is entry (l, node) of a layer-major table, times the root or the linkage scale of that layer |
| `Layout.PlainRead` | src/eval/linkage_norm_provider.cpp:161-172 | plain coefficients: layer 0 apart, the other layers a row per node |
| `Layout.RootPart` | cmd/export_stlq_query_adc.cpp:384-397 | a root part is the combination of the centre and the columns of the node's codes in the root codebooks, with the scaled codes as coefficients |
| `Layout.LinkPart` | cmd/export_stlq_query_adc.cpp:399-418 | a linkage part likewise from the linkage codebooks, the code of layer 0 stored apart |
| `StoredCoeffs.ReadsStored` | src/coeff/coeff_cluster_quantizer.cpp:248-255 | what is read for a member of a group is the group's scale times the code the quantiser stored for it, and the member is read as one of its group |
| `StoredCoeffs.ReadOptimum` | src/coeff/coeff_cluster_quantizer.cpp:183-255 | no accepted candidate, at any scale, approximates the samples of a group's layer better than the coefficients that are read back |
| `LinkageNorm.LinkageNormProviderLookup.ReadRoot` | src/eval/linkage_norm_provider.cpp:122-129 | flat columns and coefficients of a root's layers |
| `LinkageNorm.LinkageNormProviderLookup.ReadLink` | src/eval/linkage_norm_provider.cpp:206-223 | flat columns and coefficients of a linkage node's layers |
| `LinkageNorm.GramNorm` | src/eval/linkage_norm_provider.cpp:225-233 | the double loop over the table is the squared norm of the combination |
| `LinkageNorm.LinkageNormProviderLookup.RootNorm` | src/eval/linkage_norm_provider.cpp:120-145 | squared norm of a root's vector from the tables |
| `LinkageNorm.LinkageNormProviderLookup.CrossRoot` | src/eval/linkage_norm_provider.cpp:274-306 | inner product with a root ancestor's vector |
| `LinkageNorm.LinkageNormProviderLookup.CrossLink` | src/eval/linkage_norm_provider.cpp:312-340 | inner product with a linkage ancestor's part |
| `LinkageNorm.LinkageNormProviderLookup.CrossWalk` | src/eval/linkage_norm_provider.cpp:235-342 | the ancestor walk ends and adds up the inner product with the parent's reconstruction |
| `LinkageNorm.LinkageNormProviderLookup.LinkNorm` | src/eval/linkage_norm_provider.cpp:201-353 | parent norm + residual norm + 2 * cross term is the node's squared norm |
| `LinkageNorm.LinkageNormProviderLookup.ComputeNorm2` | src/eval/linkage_norm_provider.cpp:65-357 | rejects exactly the stated sizes; otherwise the squared norm of every real node's path reconstruction |
| `Linkage.ReadingsDiffer` | cmd/export_stlq_query_adc.cpp:253-258 | the tools' readings of a node differ only in what they make of a linkage node without a parent at the end of its path |
| `Linkage.ReadingsAgreeIff` | cmd/export_stlq_query_adc.cpp:253-258 | they agree exactly when the path ends in a true root or that end is read alike |
| `QueryAdc.AddScaledVector` | cmd/export_stlq_query_adc.cpp:321-323 | in place: dst plus alpha times src |
| `Vectors.DotIsSum` | cmd/export_stlq_query_adc.cpp:304-310 | an inner product is the sum of the products of the coordinates |
| `Vectors.ComboAt` | cmd/export_stlq_query_adc.cpp:326-328 | a combination of columns, coordinate by coordinate |
| `QueryAdc.CollectPath` | cmd/export_stlq_query_adc.cpp:244-258 | the stack of linkage nodes and the end of the parent path; the walk ends |
| `QueryAdc.PathMeans` | cmd/export_stlq_query_adc.cpp:241-258 | the walked path in terms of the stored parents, local numbers plus one: every node names the next, the last one names a true root or no parent |
| `QueryAdc.UnwoundIsRecon` | cmd/export_stlq_query_adc.cpp:364-418 | unwinding the stack rebuilds the recursive reconstruction |
| `QueryAdc.ReconstructRealNode` | cmd/export_stlq_query_adc.cpp:335-420 | false for a position out of range, otherwise the path reconstruction |
| `QueryAdc.DotHatRealByPath` | cmd/export_stlq_query_adc.cpp:226-293 | NaN for a position out of range or a single layer, otherwise the query's inner product with the path reconstruction |
| `QueryAdc.ComputeSelfDot` | cmd/report_linkage_int8_recon_mse.cpp:390-460 | the same inner product accumulated upwards |
| `QueryAdc.AdcIsDistance` | cmd/export_stlq_query_adc.cpp:653 | with the exact norm the ADC formula is the squared distance |
| `QueryAdc.AdcError` | cmd/export_stlq_query_adc.cpp:653 | a norm off by e moves the distance by e for every query |
| `QueryAdc.AdcOfNode` | cmd/export_stlq_query_adc.cpp:647-653 | with the provider's norm the distance misses the true one by the same gap for every query: the squared norm of the root part of an orphan at the end of the path, plus twice its inner product with the rest; nothing below a true root |
| `QueryAdc.ClampIff` | cmd/report_linkage_int8_recon_mse.cpp:1878-1884 | some base vector makes the raw squared error negative exactly when the norm used is below the reconstruction's; with the norm of the stored vector itself the error is the squared distance |
| `QueryAdc.ClampOfNode` | cmd/report_linkage_int8_recon_mse.cpp:1870-1884 | for the walked inner product and the stored norm: the clamp never acts exactly when that norm reaches the true one; for the provider's norm when the gap is not positive; without norms only for a zero reconstruction |
| `Orphans.PartsExist` | cmd/export_stlq_query_adc.cpp:228-289 | for a cluster of any shape and any two vectors there are codebooks, byte codes and int8 coefficients the export accepts, under which every node has these two as its root and linkage part |
| `Orphans.OrphanMatters` | cmd/report_linkage_int8_recon_mse.cpp:958-960 | the three readings of an orphan with these parts are their sum, the linkage part and the root part; its exported distance is off by the squared norm of the root part plus twice its inner product with the linkage part, and the clamp can act exactly when that is positive |
| `Orphans.GapDecides` | cmd/export_stlq_query_adc.cpp:647-653 | a node's distances are exact for every query if and only if its gap is zero, and its error is never clamped if and only if the gap is not positive |
| `Orphans.ExactIffRooted` | cmd/export_stlq_query_adc.cpp:647-653 | for a cluster of two layers or more with given parents: the exported distances of a node are exact for all codebooks, codes, coefficients and queries if and only if its parent path ends in a true root |
| `Orphans.ClampDeadIffRooted` | cmd/report_linkage_int8_recon_mse.cpp:1870-1884 | likewise, with the provider's norm, no base vector ever makes the clamp act on the node if and only if its parent path ends in a true root |
| `PathDp.ReconDp.constructor` | cmd/report_linkage_int8_recon_mse.cpp:946-969 | parents as locals, all marks unseen |
| `PathDp.ReconDp.Descend` | cmd/report_linkage_int8_recon_mse.cpp:1004-1022 | walks and marks until a finished node or the end of the path; meeting an own mark means a cycle |
| `PathDp.ReconDp.Unwind` | cmd/report_linkage_int8_recon_mse.cpp:1023-1036 | finishes the stacked nodes, each after its parent |
| `PathDp.ReconDp.ComputeNode` | cmd/report_linkage_int8_recon_mse.cpp:1004-1038 | fails only on a cycle; otherwise the start node is finished |
| `PathDp.ReconDp.ComputeAll` | cmd/report_linkage_int8_recon_mse.cpp:1040-1046 | fails exactly when the parents contain a cycle; otherwise every node is finished exactly once, after its parent, and its row is the reconstruction along its path, with parents before children the recursive one |
| `PathDp.OrderExcludesCycles` | cmd/report_linkage_int8_recon_mse.cpp:1011-1014 | an order of all nodes with parents first rules out every cycle |
| `PathDp.RowsArePaths` | cmd/report_linkage_int8_recon_mse.cpp:1023-1036 | right rows are the path reconstructions, whatever the order of the nodes |
| `PathDp.RowsAreRecon` | cmd/report_linkage_int8_recon_mse.cpp:1023-1036 | with parents before children they are the recursive reconstruction |
| `PathDp.FinishedRows` | cmd/report_linkage_int8_recon_mse.cpp:1023-1046 | in a finished table every row is the reconstruction along its path of at most as many nodes as there are |
| `GidBuckets.BucketWriter.constructor` | cmd/report_linkage_int8_recon_mse.cpp:601-613 | every bucket starts unopened with an empty buffer; at least one and at most 256 files may be open, no more than there are buckets |
| `GidBuckets.BucketWriter.LruTouch` | cmd/report_linkage_int8_recon_mse.cpp:615-623 | moves a bucket to the recent end, adding it if absent |
| `GidBuckets.BucketWriter.CloseBucket` | cmd/report_linkage_int8_recon_mse.cpp:625-637 | closes one bucket; open flags, count and list stay in step |
| `GidBuckets.BucketWriter.MakeRoom` | cmd/report_linkage_int8_recon_mse.cpp:645-647 | closes files from the least recent end, and no more than needed, until one more may be opened |
| `GidBuckets.BucketWriter.OpenFile` | cmd/report_linkage_int8_recon_mse.cpp:648-659 | truncates on the first opening only, appends later; nothing written is lost |
| `GidBuckets.BucketWriter.EnsureBucket` | cmd/report_linkage_int8_recon_mse.cpp:639-660 | the bucket is open afterwards and the cap holds |
| `GidBuckets.BucketWriter.FlushBucket` | cmd/report_linkage_int8_recon_mse.cpp:662-674 | file plus buffer stays the bucket's share of the log |
| `GidBuckets.BucketWriter.Append` | cmd/report_linkage_int8_recon_mse.cpp:720-732 | one record logged in its bucket; the buffer is written out once it holds 4 MiB, and not before |
| `GidBuckets.BucketWriter.Finish` | cmd/report_linkage_int8_recon_mse.cpp:741-744 | every buffer is written and every file closed |
| `GidBuckets.BuildGidBuckets` | cmd/report_linkage_int8_recon_mse.cpp:584-749 | each error case; otherwise every record with an id in range is written once, in order, to its bucket, and written + skipped = total |
| `GidBuckets.SpanMeans` | cmd/report_linkage_int8_recon_mse.cpp:696-700 | a cluster's ids are those between its two offsets, if the table reaches that far; none when the offsets do not ascend |
| `GidBuckets.LoadBucket` | cmd/report_linkage_int8_recon_mse.cpp:1298-1367 | loads exactly when the records are in range, no id occurs twice and, if strict, every slot is filled; each failure names its cause |
| `GidBuckets.LoadRecoversIff` | cmd/report_linkage_int8_recon_mse.cpp:1298-1367 | for distinct ids a load returns exactly what was logged if and only if the bucket has records of its own or no old ones were found and, in strict mode, every id it covers was logged |
| `GidBuckets.BucketRoundTrip` | cmd/report_linkage_int8_recon_mse.cpp:584-749 | from the id table through files and back, over any directory found: every id of the bucket gets exactly its cluster and position, and no other slot is filled, if and only if some node falls in the bucket or its file was absent or empty, and in strict mode every id covered is some node's |
| `GidBuckets.StaleLeaks` | cmd/report_linkage_int8_recon_mse.cpp:648-650 | old records of a bucket that is never opened are not truncated, and no load of them is right |
| `ReconBuckets.ThreadWriter.constructor` | cmd/report_linkage_int8_recon_mse.cpp:796-799 | at least one and at most 16 buffers are active, no more than there are buckets |
| `ReconBuckets.ThreadWriter.FlushEntry` | cmd/report_linkage_int8_recon_mse.cpp:848-867 | part plus buffer stays what is due |
| `ReconBuckets.ThreadWriter.LeastRecent` | cmd/report_linkage_int8_recon_mse.cpp:892-895 | the entry used longest ago |
| `ReconBuckets.ThreadWriter.GetEntry` | cmd/report_linkage_int8_recon_mse.cpp:877-903 | the bucket's entry: found, new, or the least recently used one written out and turned over |
| `ReconBuckets.ThreadWriter.AppendRecord` | cmd/report_linkage_int8_recon_mse.cpp:905-926 | one record logged in its bucket's entry; the buffer is written out first if the record would take it past 8 MiB and afterwards if it holds 8 MiB |
| `ReconBuckets.ThreadWriter.FlushAll` | cmd/report_linkage_int8_recon_mse.cpp:1105-1116 | every part holds what it held before plus the thread's share |
| `ReconBuckets.WriteCluster` | cmd/report_linkage_int8_recon_mse.cpp:1059-1094 | a cluster's in-range records are appended in ascending order of their ids, the others counted as skipped |
| `ReconBuckets.RunThread` | cmd/report_linkage_int8_recon_mse.cpp:826-1116 | one thread over any list of clusters |
| `ReconBuckets.BuildReconBuckets` | cmd/report_linkage_int8_recon_mse.cpp:764-1132 | all threads, on any schedule: every file of every bucket is as found with its thread's share appended, and every entry of every cluster is either written or counted as skipped, once |
| `ReconBuckets.LoadFromFileInto` | cmd/report_linkage_int8_recon_mse.cpp:1145-1226 | adds one part to the slots, or reports an id out of range or already present |
| `ReconBuckets.LoadReconBucketAny` | cmd/report_linkage_int8_recon_mse.cpp:1228-1296 | reads the single file of the older layout alone if there is one, otherwise both parts of every thread; succeeds exactly when the records read are in range, no id occurs twice over all of them and, if strict, every slot is filled |
| `ReconBuckets.RightIffOnce` | cmd/report_linkage_int8_recon_mse.cpp:1145-1296 | whatever was read, the load is right if and only if every record of the bucket was read once and nothing else and, in strict mode, every id covered is some node's |
| `ReconBuckets.PartsExact` | cmd/report_linkage_int8_recon_mse.cpp:928-1116 | whatever the assignment of clusters to threads, the parts of a bucket hold each of its records exactly once |
| `ReconBuckets.ScheduleRoundTrip` | cmd/report_linkage_int8_recon_mse.cpp:764-1296 | for distinct ids and any schedule the merged load fills exactly the slots of the bucket's nodes if and only if no part found held records (or a single file exists and holds exactly the bucket) and, in strict mode, every id covered is some node's |
| `ReconBuckets.BuildThenLoad` | cmd/report_linkage_int8_recon_mse.cpp:764-1296 | building on any schedule and then loading a bucket fills exactly the slots of its nodes, under the exact condition of ScheduleRoundTrip on the directory found |
| `ReconBuckets.ScheduleIndependent` | cmd/report_linkage_int8_recon_mse.cpp:764-1296 | any two schedules over the same directory load the same, or both fail, even with repeated ids or old records |
| `ClusterSelect.SiftUpHeap` | include/stlq/ivf/cluster_select.h:16-34 | moving the hole up restores the heap |
| `ClusterSelect.SiftDownHeap` | include/stlq/ivf/cluster_select.h:36-66 | moving the hole down restores the heap |
| `ClusterSelect.SiftUpMinHeap` | include/stlq/ivf/cluster_select.h:16-34 | in place on two arrays; entries beyond the heap unchanged |
| `ClusterSelect.SiftDownMinHeap` | include/stlq/ivf/cluster_select.h:36-66 | in place on two arrays; entries beyond the heap unchanged |
| `ClusterSelect.SelectStep` | include/stlq/ivf/cluster_select.h:89-104 | after each cluster the heap holds the best so far |
| `ClusterSelect.SelectTopClustersByScore` | include/stlq/ivf/cluster_select.h:78-106 | min(nprobe, nlist) distinct ids, none left out scores above one chosen; all ids when nprobe reaches nlist |
| `TopK.Offer` | src/eval/recall_base.cpp:167-180 | one candidate: below k all are kept, from k on a heap of the k least |
| `TopK.SortHeap` | src/eval/recall_base.cpp:183-185 | sorts, and may only be called on a heap |
| `TopK.AnyScanOrder` | src/eval/recall_base.cpp:198-246 | the result does not depend on the order of the candidates |
| `TopK.NearestMeans` | src/eval/recall_base.cpp:123-190 | the result in its own terms: k candidates with their distances, ascending by distance, ties by id, and every candidate left out comes after them |
| `TopK.FewerRankNoBetter` | src/eval/recall_base.cpp:198-246 | at every rank, more candidates never give a later entry |
| `TopK.HitIsKept` | src/eval/recall_base.cpp:198-246 | what is among the k best of all is among the k best of any part that holds it |
| `TopK.AdcDistanceOne` | src/eval/recall_base.cpp:134-146 | the norm less twice the sum over the books of coefficient times table entry at the book's offset plus the code |
| `TopK.AdcRanksLikeDistance` | src/eval/recall_base.cpp:134-146 | with exact norms it is the squared distance less a constant of the query |
| `Ivf.AdcScanAllTopK` | src/eval/recall_base.cpp:149-195 | the k least (distance, id) pairs of all vectors, ascending |
| `Ivf.AdcScanCandidatesTopK` | src/eval/recall_base.cpp:198-246 | the k least (distance, id) pairs of the candidates, ascending |
| `Ivf.BuildLists` | src/eval/recall_base.cpp:453-458 | list c holds exactly the ids of code c, ascending |
| `Ivf.CandidateCount` | src/eval/recall_base.cpp:501-510 | an id is a candidate once when its list is probed, and not otherwise |
| `Ivf.QueryIvf` | src/eval/recall_base.cpp:490-528 | no list left out scores above a probed one, a score being table entry times inverse norm; the full scan is taken exactly when the probed lists hold fewer than k ids |
| `Ivf.AllProbesIsFullScan` | src/eval/recall_base.cpp:490-528 | probing every list gives exactly the full scan |
| `Ivf.ProbesRankNoBetter` | src/eval/recall_base.cpp:490-528 | fewer probes never give a better entry at any rank |
| `Ivf.MoreProbesRankBetter` | src/eval/recall_base.cpp:490-528 | nor does a subset of the probes, unless it falls back to the full scan while the larger set finds enough ids but not all |
| `Ivf.MoreProbesIff` | src/eval/recall_base.cpp:497-526 | that proviso is exact: otherwise some distance makes the fallback of the smaller set beat the larger one |
| `Ivf.ProbedHitIsKept` | src/eval/recall_base.cpp:490-528 | an id of the full result is found as soon as its own list is probed |
| `Ivf.ComputeRecallAtKMatrix` | src/eval/recall_base.cpp:93-119 | the share of the queries whose true neighbour is in their row; 0 on degenerate inputs |
| `Ivf.EvaluateRecallBase` | src/eval/recall_base.cpp:250-386 | every error of the counts, codebooks and code widths; otherwise every row is the full scan with exactly min(k, n) entries, and the recall is theirs |
| `Ivf.ConvertCodes` | src/eval/recall_base.cpp:77-91 | fails exactly when some code exceeds a byte, or 16 bits for large books |
| `Ivf.EvaluateRecallBaseIvf` | src/eval/recall_base.cpp:393-567 | every error of the counts, codebooks, list number and code widths; otherwise rows of exactly min(max(1, k), n) entries, max(1, nprobe) probed lists but no more than there are, none left out scoring above a probed one, and rows equal to the full scan's when all lists are probed |
| `EvalMetrics.GtSetFacts` | src/eval/eval_metrics.cpp:189-197 | the distinct non-negative ids among the first gt_k |
| `EvalMetrics.IntersectionBound` | src/eval/eval_metrics.cpp:199-214 | hits never exceed the set nor k, repeats and fillers included |
| `EvalMetrics.QueryMeans` | src/eval/eval_metrics.cpp:186-233 | recall is the share of the distinct ids to be found that are among the first k predictions; nDCG the gain of all their first occurrences over that of as many hits at the top |
| `EvalMetrics.NdcgBound` | src/eval/eval_metrics.cpp:199-225 | DCG never exceeds the ideal; nDCG is between 0 and 1, and 1 exactly when there is a set, k >= 1 and the first min(size of the set, k) predictions are distinct hits |
| `EvalMetrics.RecallBound` | src/eval/eval_metrics.cpp:199-218 | recall is between 0 and 1 and never falls with k |
| `EvalMetrics.IdealDcgAtK` | src/eval/eval_metrics.cpp:62-68 | the sum of the first discounts |
| `EvalMetrics.CollectGtSet` | src/eval/eval_metrics.cpp:189-196 | the ground-truth set of a query |
| `EvalMetrics.AddQuery` | src/eval/eval_metrics.cpp:188-227 | at every cut-off adds that recall and that nDCG of the query to the curve |
| `EvalMetrics.GtMetricCurve` | src/eval/eval_metrics.cpp:178-239 | averages over the queries |
| `EvalMetrics.CurveBound` | src/eval/eval_metrics.cpp:178-239 | averaged curves stay between 0 and 1 |
| `RecallCurve.ComputeRecallCurveTop1` | src/eval/eval_metrics.cpp:28-60 | no curve on degenerate input, otherwise the recall curve, by sorted ranks |
| `RecallCurve.RecallCurveTop1` | cmd/report_stlq_oracle_rerank.cpp:176-194 | zeros on degenerate input, otherwise the recall curve, by suffix increments |
| `RecallCurve.CurvesAgree` | cmd/report_stlq_oracle_rerank.cpp:176-194 | the two tools give the same curve |
| `RecallCurve.CurveShape` | src/eval/eval_metrics.cpp:50-58 | the curve lies between 0 and 1 and never falls |
| `RecallCurve.CurveMeans` | src/eval/eval_metrics.cpp:28-60 | entry i is the share of the queries whose true neighbour is among their first i + 1 results |
| `Rerank.FastPath` | cmd/bench_stlq_exact_rerank.cpp:269-283 | the single-result loop returns the first entry of the full ranking, or -1 |
| `Rerank.ExactRerank` | cmd/bench_stlq_exact_rerank.cpp:250-308 | the first k ids of the ranking on (distance, id), filled up with -1, on both paths |
| `Rerank.OracleRerank` | cmd/report_stlq_oracle_rerank.cpp:211-236 | the same ranking by a plain sort |
| `Rerank.RerankPrefix` | cmd/bench_stlq_exact_rerank.cpp:269-304 | fewer results are a prefix of more |
| `Rerank.RerankMeans` | cmd/bench_stlq_exact_rerank.cpp:269-304 | the result in its own terms: as many ids as asked for and available, all valid candidates, ascending by distance, ties by id, then -1 |
| `Rerank.LeftOutLater` | cmd/bench_stlq_exact_rerank.cpp:269-304 | a valid candidate that is left out comes after every id listed, and no filler is then listed |
| `Rerank.RerankAnyOrder` | cmd/bench_stlq_exact_rerank.cpp:269-304 | the result depends on the candidates as a multiset, not on their order |
| `GraphQuality.CountChildren` | cmd/report_linkage_graph_quality.cpp:350-376 | the degree of a local is the number of real nodes that name it as parent; every real node starts with size one |
| `GraphQuality.AccumulateSubtrees` | cmd/report_linkage_graph_quality.cpp:397-405 | one reverse pass gives for every local the number of real nodes from which a path of parent links leads to it |
| `GraphQuality.OneEnd` | cmd/report_linkage_graph_quality.cpp:397-405 | every path ends in exactly one node without a parent |
| `GraphQuality.RootComponents` | cmd/report_linkage_graph_quality.cpp:431-465 | the recorded component sizes in order; dropping the empty ones keeps the sum |
| `GraphQuality.ComponentsCoverIff` | cmd/report_linkage_graph_quality.cpp:431-465 | the components account for every real node exactly when no non-zero parent is out of range |

## Left out

- Floating-point rounding, infinities, NaN arithmetic and SIMD or parallel reductions: exact reals stand for float and double.
- Half-precision conversion: the payload of a reconstruction record is opaque and stands for the node it was computed from; the choice between f16 and f32 by file size is not modelled.
- Real file I/O: a file is a sequence of records that can be truncated, appended to and read; failures to open or write, partial records, directory creation and progress output are not modelled.
- Symbol counts of 2^32 and more: `CompressClusterCoeffsFromQ` and `QuantizeAndCompressClusterCoeffs` require fewer coefficients, since the frequency counters would wrap.
- Alphabets outside 1..65535 and coefficients without a symbol in the configured alphabet: the source indexes its frequency table with them, so the model requires them away; for the quantiser's own output this is proved. A symbol that the conversion to 16 bits would wrap into the alphabet (more than 65408 symbols, or layers of 17 bits and more) counts as none.
- Bits per layer outside 1..31 in the coder, where the source shifts by an undefined amount; the quantiser reports them as errors before the coder runs.
- The standard library's sort, nth_element and heap algorithms are taken by contract; where std::sort may order equal keys freely the model orders them by index, which does not change any result stated here. The priority queue is a list kept in pop order.
- The arena holds indices in place of pointers, and it is proved never to outgrow its reservation, so pointers would have stayed valid.
- BitReader.ReadBit: reading past the last byte is undefined in the source and returns an arbitrary bit here.
- Models in a compressed group are shared where the source copies them; they never change once built. Serialised models are kept as length tables.
- Parents in the export, norm and graph walks precede their children, as the source relies on; only the per-cluster DP takes them in any order. Parents beyond the last node are modelled in `GraphQuality` alone.
- Null pointers, optional arrays and 16-bit against 32-bit parent storage in the cluster view; the fixed buffers of the norm provider are sequences of the same length.
- Generating percentile candidates from a range: candidate lists are arbitrary. lrint is taken on all reals, without the range limit of its result type. The refinement hook is absent.
- Norm quantisation, matrix products and inverse norms of the recall evaluation are inputs (norms, tables and scores are arbitrary).
- The list of ground-truth depths and the choice of metric mode: the curve of one depth is modelled, with recall and nDCG always computed. The discount is any positive, strictly decreasing function.
- Depth histograms, Gini coefficients, degree statistics beyond child counts, report and CSV formatting.
- Interleaving of threads inside one part file: threads write to separate files, so only the assignment of clusters to threads matters, and it is arbitrary.
- Hierarchical and HNSW probe selection, LOUDS storage, dataset readers, CUDA and BLAS code, checkpointing and linkage construction are not part of this model.
