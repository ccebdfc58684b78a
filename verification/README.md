# Verification of the hard cores of the appNG scheduler application

This project models two kinds of code and proves what they are for.

- **The library modules that the bundled Swagger UI runs on**: the persistent hash trie and the insertion-ordered map
  on top of it, block hashing, UTF-8, the streaming string decoder, base64, the buffer list, the stable hybrid sort and
  the integer range set. They sit on the second line of the bundle files, so every citation of a bundle is that line;
  the doc comments name the bundle's own function names.
- **The job and trigger lifecycle of the scheduler** (`SchedulerUtils`, `SchedulingController` and two actions).

Check everything with `dafny verify dfyconfig.toml`.

## Structure

| files | what they hold |
|---|---|
| `BitCount`, `HashTrie`, `HashTrieLaws`, `HashTrieLoops`, `HashMap` | module 43393: bit counting, the five node kinds, what an update does, the loops, the map over all histories |
| `OrderedMap` | module 43393: index map, entry list with holes, compaction |
| `Bytes`, `Chunks`, `BlockHash` | modules 24189 and 67499: buffering and padding of a block hash |
| `Utf8`, `Utf8Characters` | module 48764: `q` and `N`, and both character by character |
| `DecoderSpec`, `Utf8Stream`, `StringDecoder` | module 32553: the streaming machine as functions, its meaning in base64 and UTF-16LE, its meaning in UTF-8, and the object that runs it |
| `Base64`, `Base64Bits`, `Base64Loops`, `Base64Url` | module 79742, also bit for bit, the cleaner of 48764, and `Ue` of the core bundle's module 6298 |
| `BufferList`, `HybridSort`, `Ranges` | modules 57327, 61388 and 69450 |
| `Scheduler`, `SchedulerRuns`, `SchedulerMerge`, `SchedulerActions`, `SchedulerViews`, `SchedulerValidation`, `SchedulerRestarts`, `SchedulerSites`, `SchedulerStarts`, `SchedulerService` | the operations as functions, the invariant over runs, the merge key by key, what each user's action leaves, what one job sees, validation, restarts, what a site start makes of each job, second starts, and the classes that do it step by step |

Code that the source writes as expressions is a function with lemmas; code that changes fields, arrays or the job store
is a class or a method with loops, proved equal to the function that the lemmas are about. A hash is any function from
keys to 32-bit numbers. Keys are compared by equality. The compression function of the hash is any function.

The job store is assumed to hand out copies of job details, to replace a job's data without touching its triggers, to
accept every trigger with a valid expression but one whose name is taken or whose job is unknown, and to keep jobs
without triggers. A missing flag reads as false. Which cron expressions are valid, which strings are blank and which of
several triggers is listed first are arbitrary, except that a valid expression is not blank.

## Where the code does less than one would expect

- `q` writes one replacement character, not two, for two lead surrogates at the end of a string.
- `add` of a range set puts a range that touches none at the end of the list, wherever it belongs. `subtract` and
  `intersect` stop at the first range they do not overlap, so that later results can be wrong, and a clone can have
  other ranges than its original.
- `consume` of more than a buffer list holds leaves it with length zero and its old head.
- UTF-8 in which a three- or four-byte character breaks off after some continuation bytes can come out of the string
  decoder with fewer replacement characters than it has as a whole, depending on the cuts. No other input does.
- An application that forces its job's state can change the stored cron expression under a running trigger, and its
  job can stay disabled after a forced disabling.
- The mark of a forced disabling outlives a user who schedules the job: if the user unschedules it again, the next start
  of the site schedules it.
- Beans of two applications of a site can share a job if one application's name is the beginning of the other's up to a
  separator.

## Model

| member | source | states |
|---|---|---|
| `BitCount.GeIsCount` | application-home/resources/swagger-ui/swagger-ui-standalone-preset.js:2 | `ge`, with its signed shifts and the multiplication-free byte sums, is the true number of set bits for every 32-bit word |
| `BitCount.HasIsBit` | application-home/resources/swagger-ui/swagger-ui-standalone-preset.js:2 | the trie's bit test (`c & 1 << slot`) is exactly "bit `slot` is set" |
| `BitCount.PositionIsCount` | application-home/resources/swagger-ui/swagger-ui-standalone-preset.js:2 | a child's place in a bitmap node is the number of set bits below its slot |
| `BitCount.CountOfWith` | application-home/resources/swagger-ui/swagger-ui-standalone-preset.js:2 | setting a clear bit moves the places behind it by one and no other |
| `BitCount.CountOfWithout` | application-home/resources/swagger-ui/swagger-ui-standalone-preset.js:2 | clearing a set bit moves the places behind it back by one and no other |
| `HashTrie.SlicesDetermineHash` | application-home/resources/swagger-ui/swagger-ui-standalone-preset.js:2 | two numbers below 32^n with the same n five-bit slices are equal |
| `HashTrie.PathsDetermineHash` | application-home/resources/swagger-ui/swagger-ui-standalone-preset.js:2 | two different 32-bit hashes differ in one of seven slices, so the leaf merge `ae` ends |
| `HashTrieLaws.InsertInBitmap` | application-home/resources/swagger-ui/swagger-ui-standalone-preset.js:2 | inserting a child puts it at its slot, keeps every other slot's child, and grows the bit count by one |
| `HashTrieLaws.RemoveFromBitmap` | application-home/resources/swagger-ui/swagger-ui-standalone-preset.js:2 | removing a child empties its slot, keeps every other slot's child, and shrinks the bit count by one |
| `HashTrieLaws.ReplaceInBitmap` | application-home/resources/swagger-ui/swagger-ui-standalone-preset.js:2 | replacing a child changes its slot and no other |
| `HashTrieLaws.ExpandBitmap` | application-home/resources/swagger-ui/swagger-ui-standalone-preset.js:2 | `le`: the 32-slot array node has the bitmap's children at their slots, the new one too, and the right count |
| `HashTrieLaws.PackArrayNode` | application-home/resources/swagger-ui/swagger-ui-standalone-preset.js:2 | `fe`: packing back to a bitmap loses exactly the removed slot, and the node count is the bit count |
| `HashTrieLaws.WithChildHasNewChildren` | application-home/resources/swagger-ui/swagger-ui-standalone-preset.js:2 | every update of a branch, through every change of node kind, sets one slot's child; or the branch collapses to its only leaf or collision node |
| `HashTrieLaws.MergeIsWellFormed` | application-home/resources/swagger-ui/swagger-ui-standalone-preset.js:2 | `ae` builds a well-formed subtree for two different keys, however long their hashes agree; a bitmap node if the hashes differ |
| `HashTrieLaws.GetAfterMerge` | application-home/resources/swagger-ui/swagger-ui-standalone-preset.js:2 | after `ae`, the old node's entries and the new one are found, and nothing else |
| `HashTrieLaws.UpdateKeepsShape` | application-home/resources/swagger-ui/swagger-ui-standalone-preset.js:2 | `update` keeps the shape: bitmap nodes hold one child per set bit, array node counts are exact, every leaf's hash follows its path, collisions share a hash |
| `HashTrieLaws.UpdateLaw` | application-home/resources/swagger-ui/swagger-ui-standalone-preset.js:2 | `get` after `update` is the new value at the key and the old one everywhere else, at every level and for every hash function |
| `HashTrieLaws.UpdateFlags` | application-home/resources/swagger-ui/swagger-ui-standalone-preset.js:2 | `update` reports a change exactly if the value changed, a resize exactly if the key came or went, and without a change returns the node itself |
| `HashTrieLaws.KindAfterChild` | application-home/resources/swagger-ui/swagger-ui-standalone-preset.js:2 | a bitmap node of sixteen children becomes an array node with the next, an array node left with fewer than eight becomes a bitmap node, and no other does |
| `HashTrieLoops.FindLoop` | application-home/resources/swagger-ui/swagger-ui-standalone-preset.js:2 | the search loop of the entry lists finds the first entry of the key, or the end |
| `HashTrieLoops.ExpandLoop` | application-home/resources/swagger-ui/swagger-ui-standalone-preset.js:2 | the shifting loop of `le` fills the slots as the bitmap says |
| `HashTrieLoops.PackLoop` | application-home/resources/swagger-ui/swagger-ui-standalone-preset.js:2 | the loop of `fe` packs all children but the skipped one, in slot order |
| `HashTrieLoops.CreateNodesLoop` | application-home/resources/swagger-ui/swagger-ui-standalone-preset.js:2 | the loop of `ce` turns a full array map into a well-formed trie with the new entry |
| `HashMap.UpdateRootLaw` | application-home/resources/swagger-ui/swagger-ui-standalone-preset.js:2 | the same laws at the root, through the array map of up to eight entries and its turn into a trie |
| `HashMap.KindAfterNinth` | application-home/resources/swagger-ui/swagger-ui-standalone-preset.js:2 | the array map becomes a trie with its ninth entry, and not before |
| `HashMap.FetchAfterAssign` | application-home/resources/swagger-ui/swagger-ui-standalone-preset.js:2 | `get` after `set` or `remove` on the map itself, empty root included |
| `HashMap.SizeAfterAssign` | application-home/resources/swagger-ui/swagger-ui-standalone-preset.js:2 | `size` grows, shrinks or stays exactly as a key comes, goes or is overwritten |
| `HashMap.AssignRefines` | application-home/resources/swagger-ui/swagger-ui-standalone-preset.js:2 | `oe` on a map that represents a mathematical map represents the updated mathematical map |
| `HashMap.HistoryRefines` | application-home/resources/swagger-ui/swagger-ui-standalone-preset.js:2 | over every sequence of sets and removes from the empty map, `get` is lookup in the mathematical map and `size` its cardinality, for any hash function, all-colliding ones too |
| `HashMap.LastEditCounts` | application-home/resources/swagger-ui/swagger-ui-standalone-preset.js:2 | over every history the last edit of a key is what `get` finds under it, on any map |
| `OrderedMap.PositionsInverse` | application-home/resources/swagger-ui/swagger-ui-standalone-preset.js:2 | the index map and the entry list are inverse to each other |
| `OrderedMap.CompactionLaw` | application-home/resources/swagger-ui/swagger-ui-standalone-preset.js:2 | compaction keeps the entries in order and rebuilds an index that is inverse to the compacted list |
| `OrderedMap.FetchLaw` | application-home/resources/swagger-ui/swagger-ui-standalone-preset.js:2 | a lookup through index and list finds the pair in the list of pairs; `size` is their number |
| `OrderedMap.OverwriteLaw` | application-home/resources/swagger-ui/swagger-ui-standalone-preset.js:2 | setting a present key changes its value and nothing else: every entry stays at its index |
| `OrderedMap.AppendLaw` | application-home/resources/swagger-ui/swagger-ui-standalone-preset.js:2 | setting an absent key, removed before or not, appends it behind an unchanged list of entries |
| `OrderedMap.RemoveLaw` | application-home/resources/swagger-ui/swagger-ui-standalone-preset.js:2 | removing takes the key's own entry out and leaves the others in their order; removing an absent key changes nothing |
| `OrderedMap.FetchAfterPut` | application-home/resources/swagger-ui/swagger-ui-standalone-preset.js:2 | `get` after `set` or `remove` is the new value at the key and the old one at every other key, through every compaction; `size` counts the coming and going |
| `OrderedMap.PutRefines` | application-home/resources/swagger-ui/swagger-ui-standalone-preset.js:2 | `qe`, compaction included, refines the edit of a list of distinct-key pairs and keeps the invariant |
| `OrderedMap.PutKeepsFewHoles` | application-home/resources/swagger-ui/swagger-ui-standalone-preset.js:2 | the list has at most max(31, size + 1) holes after `qe` if it had before |
| `OrderedMap.RemovalCompacts` | application-home/resources/swagger-ui/swagger-ui-standalone-preset.js:2 | removing a key compacts a list of at least 32 places that is at least half empty, and no other; another gets a hole or is cut at its end |
| `OrderedMap.HistoryRefines` | application-home/resources/swagger-ui/swagger-ui-standalone-preset.js:2 | over every history from the empty map: entries, lookups and size are those of the list of pairs, the last edit of a key is what `get` finds, the entries stand in the order of the edits from which their keys are there, and holes stay at most max(31, size + 1) |
| `OrderedMap.LastEditCounts` | application-home/resources/swagger-ui/swagger-ui-standalone-preset.js:2 | on any map the last edit of a key decides what is found under it |
| `OrderedMap.EntriesInOrder` | application-home/resources/swagger-ui/swagger-ui-standalone-preset.js:2 | over every history the order of iteration is the order in which the keys came; a key that was removed and set again came the second time |
| `BlockHash.ZeroCountIsLeast` | application-home/resources/swagger-ui/swagger-ui-standalone-preset.js:2 | the zeros that `digest` writes are the least number that brings length + 1 to the final size modulo the block size (section 5.1 of FIPS 180-4) |
| `BlockHash.PaddedLength` | application-home/resources/swagger-ui/swagger-ui-standalone-preset.js:2 | the padded length is a multiple of the block size, with one extra block exactly when the remainder reaches the final size |
| `BlockHash.PadInjective` | application-home/resources/swagger-ui/swagger-ui-standalone-preset.js:2 | different messages have different paddings |
| `BlockHash.LengthWords` | application-home/resources/swagger-ui/swagger-ui-standalone-preset.js:2 | the high and low words written by `digest` rebuild eight times the length |
| `BlockHash.PadIsPadded` | application-home/resources/swagger-ui/swagger-ui-standalone-preset.js:2 | the padding spelled out: the message, 0x80, as few zeros as possible up to a whole number of blocks, the bit length in the last eight bytes, most significant first |
| `BlockHash.FoldIsChain` | application-home/resources/swagger-ui/swagger-ui-standalone-preset.js:2 | the hash of whole blocks is the last of a chain of states, one behind each block, each compressed from the one before and that block |
| `BlockHash.BlockHash.Update` | application-home/resources/swagger-ui/swagger-ui-standalone-preset.js:2 | `update` appends its argument to the message, whatever blocks it completes |
| `BlockHash.BlockHash.Digest` | application-home/resources/swagger-ui/swagger-ui-standalone-preset.js:2 | `digest` is the last of the chain of states that starts with the initial one and compresses the blocks of the padded message in order, including the case of an extra block |
| `BlockHash.HashChunks` | application-home/resources/swagger-ui/swagger-ui-standalone-preset.js:2 | any split of a message into `update` calls gives the last of the chain of states over the blocks of the whole padded message |
| `Utf8.UnitsOfScalars` | application-home/resources/swagger-ui/swagger-ui-standalone-preset.js:2 | the units of a string's scalars are the string with lone surrogates replaced by U+FFFD |
| `Utf8.DecodeEncoded` | application-home/resources/swagger-ui/swagger-ui-standalone-preset.js:2 | `N` decodes encoded scalars to their units and goes on with what follows (section 3 of RFC 3629) |
| `Utf8.ReadIsScalars` | application-home/resources/swagger-ui/swagger-ui-standalone-preset.js:2 | what the pair-keeping loop of `q` reads are the scalars of the string, less the last of two final lead surrogates |
| `Utf8.FitIsLongestPrefix` | application-home/resources/swagger-ui/swagger-ui-standalone-preset.js:2 | with a budget exactly the longest prefix of scalars that fits is written |
| `Utf8.EncodeLoop` | application-home/resources/swagger-ui/swagger-ui-standalone-preset.js:2 | the loop of `q`, budget included, computes that encoding |
| `Utf8.DecodeLoop` | application-home/resources/swagger-ui/swagger-ui-standalone-preset.js:2 | the loop of `N` decodes the clipped range, malformed bytes included |
| `Utf8.EncodeThenDecode` | application-home/resources/swagger-ui/swagger-ui-standalone-preset.js:2 | `N(q(s))` is `s` with lone surrogates replaced if and only if `s` does not end in two lead surrogates; it is `s` if and only if `s` is well formed |
| `Utf8.TwoLeadsLoseOne` | application-home/resources/swagger-ui/swagger-ui-standalone-preset.js:2 | two lead surrogates at the end come out as one U+FFFD, not two |
| `Utf8.EncodeWithBudget` | application-home/resources/swagger-ui/swagger-ui-standalone-preset.js:2 | for every string, `q` with a budget writes the encoding of the longest prefix that fits of the scalars it keeps, which are all unless the string ends in two leads, and never more bytes |
| `Utf8Characters.EncodingIsUtf8` | application-home/resources/swagger-ui/swagger-ui-standalone-preset.js:2 | the bytes that `q` writes for a character are those of the table in section 3 of RFC 3629, and no others are |
| `Utf8Characters.UnitsAreUtf16` | application-home/resources/swagger-ui/swagger-ui-standalone-preset.js:2 | the units that `N` writes for a character are it, or the surrogate pair that stands for it |
| `Utf8Characters.DecodeByCharacters` | application-home/resources/swagger-ui/swagger-ui-standalone-preset.js:2 | `N` takes a character exactly where its encoding stands in the bytes; any other byte gives U+FFFD, so overlong forms, surrogates and numbers above 10FFFF are refused |
| `Utf8Characters.UnitsAfterRoundTrip` | application-home/resources/swagger-ui/swagger-ui-standalone-preset.js:2 | `N(q(s))` unit by unit: U+FFFD for a surrogate without partner, the same unit otherwise, and one unit less if the string ends in two leads |
| `Utf8Characters.OverlongIsNoCharacter` | application-home/resources/swagger-ui/swagger-ui-standalone-preset.js:2 | the overlong form C0 AF decodes to two U+FFFD |
| `DecoderSpec.ChunksMeanWhole` | application-home/resources/swagger-ui/swagger-ui-standalone-preset.js:2 | in base64 and UTF-16LE mode, for every byte sequence and every cut, the `write` results and `end` make up the text of the whole |
| `DecoderSpec.TextIsUtf16le` | application-home/resources/swagger-ui/swagger-ui-standalone-preset.js:2 | each UTF-16LE unit is made of two bytes, the low one first, and an odd last byte is dropped |
| `DecoderSpec.TextHoldsRest` | application-home/resources/swagger-ui/swagger-ui-standalone-preset.js:2 | `text` holds back the bytes that do not fill three in base64, an odd byte in UTF-16LE, or there a lead surrogate at the end, and nothing else |
| `DecoderSpec.HeldIsRest` | application-home/resources/swagger-ui/swagger-ui-standalone-preset.js:2 | after any writes, in base64 all full threes have come out; in UTF-16LE at most three bytes are held back, and an even number exactly if an even number was given |
| `Utf8Stream.CutsMeanWhole` | application-home/resources/swagger-ui/swagger-ui-standalone-preset.js:2 | in UTF-8 mode every cut of the bytes gives what decoding the whole gives, if and only if no three- or four-byte character in them breaks off after some, yet too few, continuation bytes |
| `Utf8Stream.CutsNeverAdd` | application-home/resources/swagger-ui/swagger-ui-standalone-preset.js:2 | no cut of any bytes, malformed or not, gives more units than decoding the whole |
| `Utf8Stream.CutShows` | application-home/resources/swagger-ui/swagger-ui-standalone-preset.js:2 | cut where such a character breaks off, the bytes give fewer units than the whole |
| `Utf8Stream.TextIsExact` | application-home/resources/swagger-ui/swagger-ui-standalone-preset.js:2 | the UTF-8 `text` loses nothing: it decodes up to the incomplete character at the end and holds exactly that back |
| `Utf8Stream.WriteLoses` | application-home/resources/swagger-ui/swagger-ui-standalone-preset.js:2 | one UTF-8 `write` on any bytes: what is then held back is the incomplete character at the end of all bytes so far, and units are lost only if a character is truncated |
| `Utf8Stream.WellFormedIsNotTruncated` | application-home/resources/swagger-ui/swagger-ui-standalone-preset.js:2 | well-formed UTF-8 has no truncated character |
| `Utf8Stream.Utf8ChunksMeanWhole` | application-home/resources/swagger-ui/swagger-ui-standalone-preset.js:2 | so well-formed input cut anywhere, also inside characters, means the whole |
| `Utf8Stream.Utf8PrefixMeansCharacters` | application-home/resources/swagger-ui/swagger-ui-standalone-preset.js:2 | for input that stops inside a character: the complete characters come out, the held bytes are the beginning of the next, and `end` adds one U+FFFD for them |
| `Utf8Stream.MalformedChunksDiffer` | application-home/resources/swagger-ui/swagger-ui-standalone-preset.js:2 | an input for which a cut shows: bytes F0 90, cut before 41, give one U+FFFD, but two as a whole |
| `StringDecoder.StringDecoder.Text` | application-home/resources/swagger-ui/swagger-ui-standalone-preset.js:2 | the decoder's `text` functions change `lastNeed`, `lastTotal` and `lastChar` as specified |
| `StringDecoder.StringDecoder.CheckExtraBytes` | application-home/resources/swagger-ui/swagger-ui-standalone-preset.js:2 | `utf8CheckExtraBytes` gives the held bytes up at the first of the needed bytes that is no continuation |
| `StringDecoder.StringDecoder.FillLast` | application-home/resources/swagger-ui/swagger-ui-standalone-preset.js:2 | `fillLast` completes or extends the held bytes, or gives them up at a byte that is no continuation |
| `StringDecoder.StringDecoder.Write` | application-home/resources/swagger-ui/swagger-ui-standalone-preset.js:2 | `write` is the specified step of the streaming machine |
| `StringDecoder.StringDecoder.End` | application-home/resources/swagger-ui/swagger-ui-standalone-preset.js:2 | `end` is a last `write` and the text of what is still held |
| `StringDecoder.DecodeChunks` | application-home/resources/swagger-ui/swagger-ui-standalone-preset.js:2 | a new decoder fed chunk by chunk returns the text of all bytes together: their base64 bit for bit, their UTF-16LE units with the low byte first, and in UTF-8 mode what decoding the whole gives unless a character is truncated, and then no more units |
| `Base64.EncodeSplit` | application-home/resources/swagger-ui/swagger-ui-standalone-preset.js:2 | encoding cuts at multiples of three without a trace, so 16383-byte chunks are safe |
| `Base64.EncodeThenDecode` | application-home/resources/swagger-ui/swagger-ui-standalone-preset.js:2 | decoding an encoding returns every byte sequence (section 4 of RFC 4648) |
| `Base64Loops.FromByteArray` | application-home/resources/swagger-ui/swagger-ui-standalone-preset.js:2 | the chunked encoder with its tail cases equals the unchunked encoding, and its characters are those of the alphabet that the bits of the bytes say, six by six, followed by one or two signs `=` |
| `Base64Bits.EncodingIsBits` | application-home/resources/swagger-ui/swagger-ui-standalone-preset.js:2 | character j stands in the alphabet of RFC 4648 at the number that bits 6j to 6j + 5 of the bytes make, zero behind the end; padding is `=` by length modulo three |
| `Base64Loops.ToByteArrayLoop` | application-home/resources/swagger-ui/swagger-ui-standalone-preset.js:2 | the decoder's loop into its sized array gives the bytes that the bits of the characters make up, two bytes of zero if the first `=` is at a multiple of four, or the length errors |
| `Base64Bits.ValueIsPlace` | application-home/resources/swagger-ui/swagger-ui-standalone-preset.js:2 | a character stands for its place in the alphabet, `-` and `_` for those of `+` and `/`, any other for zero |
| `Base64Bits.DecodingIsBits` | application-home/resources/swagger-ui/swagger-ui-standalone-preset.js:2 | decoding any text: byte k is made of bits 8k to 8k + 7 of what the characters stand for, and the errors are exact |
| `Base64Url.PadLoop` | application-home/resources/swagger-ui/swagger-ui-standalone-preset.js:2 | the re-padding loop adds `=` up to a multiple of four |
| `Base64Url.CleanIgnores` | application-home/resources/swagger-ui/swagger-ui-standalone-preset.js:2 | the cleaner removes a character of neither alphabet wherever it stands: the text decodes as without it |
| `Base64Url.CleanStops` | application-home/resources/swagger-ui/swagger-ui-standalone-preset.js:2 | what stands behind a sign `=` does not count |
| `Base64Url.UrlSafeRoundTrip` | application-home/resources/swagger-ui/swagger-ui-es-bundle-core.js:2 | the unpadded URL-safe form of `Ue`, cleaned and padded again, decodes to the original bytes (section 5 of RFC 4648) |
| `Base64Url.UrlSafeShape` | application-home/resources/swagger-ui/swagger-ui-es-bundle-core.js:2 | the URL-safe form of `Ue` has a character for each six bits (43 for a 32-byte digest), no `+`, `/` or `=` among them, and determines the bytes |
| `Base64Url.UrlSafeIsBits` | application-home/resources/swagger-ui/swagger-ui-es-bundle-core.js:2 | the URL-safe form bit for bit, in the alphabet of table 2 of RFC 4648, without padding |
| `BufferList.BufferList.Push` | application-home/resources/swagger-ui/swagger-ui-standalone-preset.js:2 | `push` appends one piece and keeps head, tail and length consistent |
| `BufferList.BufferList.Unshift` | application-home/resources/swagger-ui/swagger-ui-standalone-preset.js:2 | `unshift` prepends one piece |
| `BufferList.BufferList.Shift` | application-home/resources/swagger-ui/swagger-ui-standalone-preset.js:2 | `shift` returns and removes the first piece, or nothing from an empty list |
| `BufferList.BufferList.CollectBuffer` | application-home/resources/swagger-ui/swagger-ui-standalone-preset.js:2 | the loop of `_getBuffer` copies a prefix of the contents into the new buffer and stops at the right node and offset |
| `BufferList.BufferList.CollectString` | application-home/resources/swagger-ui/swagger-ui-standalone-preset.js:2 | the loop of `_getString` does the same by concatenation |
| `BufferList.BufferList.Consume` | application-home/resources/swagger-ui/swagger-ui-standalone-preset.js:2 | `consume(n)` returns the first n elements and leaves the rest, splitting a node if need be; the list stays consistent if and only if it held n; what too large an n returns starts with all that was held |
| `BufferList.CutPieces` | application-home/resources/swagger-ui/swagger-ui-standalone-preset.js:2 | cutting inside one piece leaves exactly the contents behind the cut |
| `HybridSort.StableSortIsPermutation` | application-home/resources/swagger-ui/swagger-ui-standalone-preset.js:2 | a stable sort, defined by order and by the sequences of equivalent elements, is a permutation |
| `HybridSort.StableSortIsUnique` | application-home/resources/swagger-ui/swagger-ui-standalone-preset.js:2 | a sequence has only one stable sort, so the hybrid agrees with any other stable sort |
| `HybridSort.InsertKeepsStable` | application-home/resources/swagger-ui/swagger-ui-standalone-preset.js:2 | inserting behind all elements that are not greater keeps the prefix stably sorted |
| `HybridSort.TakeLeft` | application-home/resources/swagger-ui/swagger-ui-standalone-preset.js:2 | taking from the left half on a tie keeps the merge stable |
| `HybridSort.TakeRight` | application-home/resources/swagger-ui/swagger-ui-standalone-preset.js:2 | taking from the right half only when it is smaller keeps the merge stable |
| `HybridSort.InsertionSort` | application-home/resources/swagger-ui/swagger-ui-standalone-preset.js:2 | the insertion sort in place: a permutation with any comparison function, the stable sort with a total preorder |
| `HybridSort.Merge` | application-home/resources/swagger-ui/swagger-ui-standalone-preset.js:2 | the merge writes the elements of both halves with any comparison function; if both are in order, the stable sort of one after the other |
| `HybridSort.Sort` | application-home/resources/swagger-ui/swagger-ui-standalone-preset.js:2 | the hybrid sort ends, leaves a permutation with any comparison function, and the stable sort with every total preorder |
| `Ranges.AddIsUnion` | application-home/resources/swagger-ui/swagger-ui-standalone-preset.js:2 | `add` is set union on any list of ranges |
| `Ranges.AddKeepsForm` | application-home/resources/swagger-ui/swagger-ui-standalone-preset.js:2 | `add` keeps the normal form if and only if the new range touches one that is there or lies above all |
| `Ranges.AddBelowBreaksForm` | application-home/resources/swagger-ui/swagger-ui-standalone-preset.js:2 | 10, 1, 20 added in this order: the list is not in normal form, and subtracting 10-20 leaves 20 in |
| `Ranges.SubtractIsDifference` | application-home/resources/swagger-ui/swagger-ui-standalone-preset.js:2 | on any list `subtract` is set difference if and only if the ranges it overlaps stand next to each other |
| `Ranges.SubtractReaches` | application-home/resources/swagger-ui/swagger-ui-standalone-preset.js:2 | on any list `subtract` takes its argument out of the reached ranges, those from the first that overlaps up to the next that does not, and leaves all others whole |
| `Ranges.SubtractKeepsForm` | application-home/resources/swagger-ui/swagger-ui-standalone-preset.js:2 | `subtract` keeps the normal form |
| `Ranges.IntersectReaches` | application-home/resources/swagger-ui/swagger-ui-standalone-preset.js:2 | on any list `intersect` holds what the reached ranges share with its argument: those from the first that overlaps up to the next that does not |
| `Ranges.IntersectIsMeetIfCovered` | application-home/resources/swagger-ui/swagger-ui-standalone-preset.js:2 | on any list `intersect` is set intersection if and only if what its argument shares with the ranges that are not reached is held by reached ranges too |
| `Ranges.IntersectIsMeet` | application-home/resources/swagger-ui/swagger-ui-standalone-preset.js:2 | on disjoint ranges in any order `intersect` is set intersection if and only if the ranges it overlaps stand next to each other |
| `Ranges.NormalFormIntersects` | application-home/resources/swagger-ui/swagger-ui-standalone-preset.js:2 | in normal form `intersect` is set intersection |
| `Ranges.IntersectWrong` | application-home/resources/swagger-ui/swagger-ui-standalone-preset.js:2 | 10, 1, 20 added in this order: intersecting with 10-20 loses 20 |
| `Ranges.IntersectKeepsForm` | application-home/resources/swagger-ui/swagger-ui-standalone-preset.js:2 | `intersect` keeps the normal form |
| `Ranges.AddAllIsUnion` | application-home/resources/swagger-ui/swagger-ui-standalone-preset.js:2 | adding another range set is union |
| `Ranges.SubtractAllIsDifference` | application-home/resources/swagger-ui/swagger-ui-standalone-preset.js:2 | subtracting another range set is difference, and keeps the normal form |
| `Ranges.IntersectAllIsMeet` | application-home/resources/swagger-ui/swagger-ui-standalone-preset.js:2 | intersecting with another list of ranges, in normal form or not, is intersection |
| `Ranges.IntersectAllKeepsForm` | application-home/resources/swagger-ui/swagger-ui-standalone-preset.js:2 | intersecting with another range set keeps the normal form |
| `Ranges.CloneIsSame` | application-home/resources/swagger-ui/swagger-ui-standalone-preset.js:2 | a clone has the same ranges if and only if no range touches one before it in the list |
| `Ranges.CloneDiffers` | application-home/resources/swagger-ui/swagger-ui-standalone-preset.js:2 | 10, 1, 20 and 11-25 added in this order: the clone has other ranges |
| `Ranges.HistoryRefines` | application-home/resources/swagger-ui/swagger-ui-standalone-preset.js:2 | over every history of edits whose additions touch or lie above, the list is in normal form and holds the plain set |
| `Ranges.NormalFormIsCanonical` | application-home/resources/swagger-ui/swagger-ui-standalone-preset.js:2 | two lists in normal form with the same members are the same |
| `Ranges.NumbersAreMembers` | application-home/resources/swagger-ui/swagger-ui-standalone-preset.js:2 | `numbers()` lists the members in increasing order, each once |
| `Ranges.LengthIsCardinality` | application-home/resources/swagger-ui/swagger-ui-standalone-preset.js:2 | `length` is the number of members |
| `Ranges.IndexIsNumber` | application-home/resources/swagger-ui/swagger-ui-standalone-preset.js:2 | `index(k)` is `numbers()[k]`, and reads past the list exactly from `length` on |
| `Ranges.DRange.Add` | application-home/resources/swagger-ui/swagger-ui-standalone-preset.js:2 | the two loops of `add` splice the merged range in and update the length |
| `Ranges.DRange.Subtract` | application-home/resources/swagger-ui/swagger-ui-standalone-preset.js:2 | the two loops of `subtract` cut the overlapped run and update the length |
| `Ranges.DRange.Intersect` | application-home/resources/swagger-ui/swagger-ui-standalone-preset.js:2 | `intersect` collects the common parts and updates the length |
| `Ranges.DRange.Index` | application-home/resources/swagger-ui/swagger-ui-standalone-preset.js:2 | the counting-down loop of `index` |
| `Ranges.DRange.AllNumbers` | application-home/resources/swagger-ui/swagger-ui-standalone-preset.js:2 | the nested loops of `numbers` |
| `SchedulerRuns.ScheduleKeepsInv` | src/main/java/org/appng/application/scheduler/SchedulerUtils.java:78-89 | scheduling adds a cron trigger only to a job without any, by its stored valid expression |
| `SchedulerRuns.RescheduleKeepsInv` | src/main/java/org/appng/application/scheduler/SchedulerUtils.java:91-101 | rescheduling replaces a cron trigger under its own name and stores the expression with it, and changes nothing else; it throws exactly if there is a cron trigger and the expression is invalid, and then the store is as it was |
| `SchedulerRuns.StartEntryKeepsInv` | src/main/java/org/appng/application/scheduler/business/SchedulingController.java:65-87 | starting a bean keeps the invariant if and only if its application does not force another expression on a scheduled job |
| `SchedulerRuns.ForcedStateBreaksInv` | src/main/java/org/appng/application/scheduler/SchedulerUtils.java:229-253 | a job scheduled by one expression whose application forces another: the stored expression changes, the trigger does not |
| `SchedulerRuns.RunKeepsInv` | src/main/java/org/appng/application/scheduler/SchedulerUtils.java:63-157 | over every run of schedule, unschedule, start, delete, reschedule, site starts without forced state, completing and expiring triggers: at most one cron trigger a job, every trigger of a stored job, expression of the trigger equal to the stored one |
| `SchedulerMerge.MergeLaw` | src/main/java/org/appng/application/scheduler/SchedulerUtils.java:229-253 | each key of the merged data: a stored expression that is not blank is kept with the enabled state unless the state is forced, a mark enables it once and goes, and all else is supplied, or else stored |
| `SchedulerActions.SetStateLaw` | src/main/java/org/appng/application/scheduler/business/SetSchedulerStateAction.java:55-82 | what the actions schedule, unschedule, start and delete leave of jobs and triggers, and when they throw or do nothing, by the action's name |
| `SchedulerActions.UpdateLaw` | src/main/java/org/appng/application/scheduler/business/UpdateSchedulerAction.java:52-77 | what a new expression leaves of jobs and triggers: a cron trigger fires by it under its old name and the job stores it; without a cron trigger the job stores it; an invalid one changes nothing |
| `SchedulerActions.UpdateReplacesTrigger` | src/main/java/org/appng/application/scheduler/SchedulerUtils.java:91-101 | where the invariant holds, a valid new expression replaces that of the job's cron trigger and of its data, and nothing else changes |
| `SchedulerActions.UnscheduleParks` | src/main/java/org/appng/application/scheduler/SchedulerUtils.java:124-146 | where the invariant holds, unscheduling leaves the job with its expression, not enabled, and no cron trigger |
| `SchedulerSites.EntriesAreBeans` | src/main/java/org/appng/application/scheduler/business/SchedulingController.java:63-73 | a start comes across exactly the beans that the applications deliver |
| `SchedulerSites.BeanExistsLaw` | src/main/java/org/appng/application/scheduler/business/SchedulingController.java:112-123 | with distinct names, validation finds a bean exactly if the start comes across it |
| `SchedulerSites.NameFromKey` | src/main/java/org/appng/application/scheduler/business/SchedulingController.java:107-111 | the bean name that validation takes from a job's own name is the one that the name was made from; it throws exactly if there is no application name that is shorter |
| `SchedulerSites.ValidationLaw` | src/main/java/org/appng/application/scheduler/business/SchedulingController.java:98-128 | what validation makes of each listed job: it is named, and if its bean is missing and it has a cron trigger, it loses that, is disabled and marked; nothing else |
| `SchedulerSites.StartLaw` | src/main/java/org/appng/application/scheduler/business/SchedulingController.java:63-88 | what a start makes of each job: its data is merged, its triggers stay, and without any it gets one by its expression exactly if it is enabled, the expression valid and the name free |
| `SchedulerSites.FirstStartSchedules` | src/main/java/org/appng/application/scheduler/business/SchedulingController.java:56-96 | a job that was never scheduled comes out of a start with exactly one trigger, which fires by the supplied expression, if and only if that is valid, the job is enabled, no listed job makes validation throw, and the name is free |
| `SchedulerViews.StartEntriesView` | src/main/java/org/appng/application/scheduler/business/SchedulingController.java:63-88 | a job comes out of a site start as from its own bean alone |
| `SchedulerViews.JobKeyInjective` | src/main/java/org/appng/application/scheduler/SchedulerUtils.java:259-261 | beans of two applications never share a job unless one name is the beginning of the other up to a separator |
| `SchedulerViews.JobKeysClash` | src/main/java/org/appng/application/scheduler/SchedulerUtils.java:259-261 | two different applications can have beans that share a job if and only if one name is the beginning of the other up to a separator |
| `SchedulerViews.JobKeyAmbiguous` | src/main/java/org/appng/application/scheduler/SchedulerUtils.java:259-261 | bean c of application a_b and bean b_c of application a share a job |
| `SchedulerViews.EntriesHaveDistinctKeys` | src/main/java/org/appng/application/scheduler/business/SchedulingController.java:63-73 | in a site with distinct application names that do not clash, and distinct bean names in each, no two beans share a job |
| `SchedulerRestarts.RestartUndoesDisabling` | src/main/java/org/appng/application/scheduler/SchedulerUtils.java:124-146 | a disabling, forced or by a user, followed by a site start with validation or without: exactly one cron trigger with the old expression, enabled, mark cleared, if and only if the flags say so, no listed job makes validation throw, and the trigger's name is free or held by a trigger that validation removes; all seen before the start |
| `SchedulerRestarts.UnforcedIsRestored` | src/main/java/org/appng/application/scheduler/SchedulerUtils.java:229-253 | where neither the job nor its application forces the state or touches the mark, the trigger comes back if and only if the job was marked, now or before |
| `SchedulerRestarts.ForcedStateStaysDisabled` | src/main/java/org/appng/application/scheduler/SchedulerUtils.java:229-253 | a job disabled by force whose application forces its state without enabling it: it has no trigger and stays disabled after the start |
| `SchedulerRestarts.MarkOutlivesUser` | src/main/java/org/appng/application/scheduler/SchedulerUtils.java:78-89 | scheduling does not clear the mark: a job disabled by force, then scheduled and unscheduled by a user, is scheduled again by the next start |
| `SchedulerRestarts.MissingBeanComesBack` | src/main/java/org/appng/application/scheduler/business/SchedulingController.java:56-128 | over two starts and any steps between: a start that validates while the bean is missing takes the trigger and marks the job, and the first start that has the bean again restores it, exactly if the flags and names permit |
| `SchedulerRestarts.MissingBeanComesBackUnforced` | src/main/java/org/appng/application/scheduler/business/SchedulingController.java:56-128 | the same over every run in which no application forces the state of its jobs |
| `SchedulerRestarts.UnscheduledStays` | src/main/java/org/appng/application/scheduler/business/SetSchedulerStateAction.java:72-73 | a job unscheduled by a user stays so, with its expression, over every run with any number of restarts in which no user acts on it and its application neither forces its state nor marks it |
| `SchedulerValidation.ValidationRemovesExactly` | src/main/java/org/appng/application/scheduler/business/SchedulingController.java:98-128 | validation removes the cron triggers of exactly those jobs that have one and whose application or bean is missing |
| `SchedulerValidation.ValidationThrows` | src/main/java/org/appng/application/scheduler/business/SchedulingController.java:98-128 | validation ends without an exception exactly if each listed job exists and has a bean name or a name to take it from |
| `SchedulerStarts.ValidationChecks` | src/main/java/org/appng/application/scheduler/business/SchedulingController.java:98-128 | after validation there is nothing left for a second one to do on the job |
| `SchedulerStarts.MergeTwice` | src/main/java/org/appng/application/scheduler/SchedulerUtils.java:229-253 | merging the same application data twice is merging it once, to every reader |
| `SchedulerStarts.BeansStartTwice` | src/main/java/org/appng/application/scheduler/business/SchedulingController.java:63-88 | a second start of the beans changes nothing to any reader if and only if no job was stored as enabled without a trigger, for want of a free name, whose name under the second stamp is free |
| `SchedulerStarts.BeanStartsTwice` | src/main/java/org/appng/application/scheduler/business/SchedulingController.java:63-88 | what a taken name leads to: the job is stored as enabled without a trigger, and a later start under a stamp with a free name adds it |
| `SchedulerStarts.StartTwice` | src/main/java/org/appng/application/scheduler/business/SchedulingController.java:56-96 | a second start, with or without validation, changes no trigger and no observable job data, if before the first each started job keeps a trigger or its new trigger name is free |
| `SchedulerService.SchedulerUtils.ScheduleJob` | src/main/java/org/appng/application/scheduler/SchedulerUtils.java:78-89 | `scheduleJob`: unless the job has a trigger, it is stored as enabled and gets one by its valid expression; it throws if the name is taken |
| `SchedulerService.SchedulerUtils.RescheduleJob` | src/main/java/org/appng/application/scheduler/SchedulerUtils.java:91-101 | `rescheduleJob`: a cron trigger fires by the new expression under its old name, the job stores it, nothing else changes; with an invalid one it throws before anything is saved |
| `SchedulerService.SchedulerUtils.DeleteCronTrigger` | src/main/java/org/appng/application/scheduler/SchedulerUtils.java:124-146 | `deleteCronTrigger`: a cron trigger goes, the job keeps its expression, disabled, and marked if forced; and whether it unscheduled |
| `SchedulerService.SchedulerUtils.AddSimpleTrigger` | src/main/java/org/appng/application/scheduler/SchedulerUtils.java:63-76 | `addSimpleTrigger`: the job gets a simple trigger, but none while a trigger of it is complete; it throws if the name is taken |
| `SchedulerService.SchedulerUtils.DeleteJob` | src/main/java/org/appng/application/scheduler/SchedulerUtils.java:181-190 | `deleteJob`: the job and all its triggers go and nothing else, unless a trigger of it is complete |
| `SchedulerService.SchedulerUtils.IsRunning` | src/main/java/org/appng/application/scheduler/SchedulerUtils.java:113-122 | the loop over the job's triggers finds a complete one exactly if there is one |
| `SchedulerService.SchedulerUtils.AddMetaData` | src/main/java/org/appng/application/scheduler/SchedulerUtils.java:229-253 | the puts, `putAll` and removal of `addMetaData` one by one give the merge, described key by key |
| `SchedulerService.SchedulerUtils.MergedJobDetail` | src/main/java/org/appng/application/scheduler/SchedulerUtils.java:216-227 | `getJobDetail` with application data creates or merges, key by key, and saves |
| `SchedulerService.SchedulingController.StartBeans` | src/main/java/org/appng/application/scheduler/business/SchedulingController.java:63-88 | the nested loops over applications and beans start every delivered bean once, in order, and each job comes out merged and scheduled as `StartLaw` says |
| `SchedulerService.SchedulingController.ValidateJobs` | src/main/java/org/appng/application/scheduler/business/SchedulingController.java:98-128 | the loop over the site's jobs, up to the first job that makes it throw; each job comes out as `ValidationLaw` says |
| `SchedulerService.SchedulingController.Start` | src/main/java/org/appng/application/scheduler/business/SchedulingController.java:56-96 | `start`: validation if asked for, then all beans |
| `SchedulerService.SetSchedulerState` | src/main/java/org/appng/application/scheduler/business/SetSchedulerStateAction.java:55-82 | the action's four branches by name: what each leaves of jobs and triggers, and those that throw without a job |
| `SchedulerService.UpdateScheduler` | src/main/java/org/appng/application/scheduler/business/UpdateSchedulerAction.java:52-77 | the guarded reschedule: a valid expression replaces that of the cron trigger and of the job, an invalid one or an unknown job changes nothing |

## Left out

- React components, Redux wiring, icons, XML and YAML handling of the bundles: user interface and plumbing.
- Owner-ID mutation in the trie and the internals of the vector trie behind the ordered map: only the persistent update path is modelled, with the entry list as a sequence. `NaN` keys and values stored as `undefined` are not told apart from others.
- Iteration, merging, `withMutations` and the other methods of the trie map.
- The inside of the SHA compression rounds, messages longer than 2^53 bytes, and the conversion of string arguments of `update` to bytes.
- The pass-through modes (latin1, ascii, hex) of the string decoder, which hold nothing back.
- Grouping code units by 4096 before `fromCharCode` in `N`: it only bounds the argument count.
- The copies of hash, decoder and buffer modules in the core bundle: the same code.
- `join`, `concat`, `first` and `inspect` of the buffer list: they only read.
- Ranges with `low` above `high`, and numbers that are not integers.
- BufferList.BufferList.Consume: `consume` of an empty list, which throws, is excluded.
- HybridSort.Sort: for a comparison function that is not a total preorder only a permutation is promised, no order.
- An application that supplies an explicit null for a reserved key: it is not told apart from an absent key. Reserved keys hold values of their own type.
- `CreateSchedulerAction`: it adds a cron trigger without storing its expression and without looking at the existing triggers. `removeSite`, which clears the store.
- Scheduler.AddTrigger: Quartz also refuses a trigger whose valid expression never fires again, after `scheduleJob` has saved the job as enabled; here every valid expression is accepted.
- Messages, logging, descriptions, listeners, Spring transactions, and when triggers fire: completing and expiring are steps that may happen at any time.
- The records, index, data source and housekeeping classes: data plumbing and calls to services that are not part of this model.
- SchedulerStarts.StartTwice: a started job whose new trigger name another job's trigger has is left to `BeansStartTwice`, which says when a second start then differs.
