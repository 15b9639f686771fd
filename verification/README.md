# zlib and gmp, verified

A Dafny model of the DEFLATE codec in `zlib/` (version 1.1.4, the formats of RFC 1950 and RFC 1951) and of two
small cores in `gmp/`: division by a precomputed reciprocal and the allocator for temporary blocks. The compressor,
the decompressor, the table builder and the allocator are classes and methods over arrays that do what the C code
does, step by step; each is proved against a specification, and the specifications are related to each other by
lemmas.

How the parts fit together:

- **LZ77** (`Lz77`, `StringHash`, `Parsing`, `Deflate`). `Output.Says` says that blocks and tallied tokens expand to
  exactly the text up to a position. `Compressor` keeps it through `deflate_slow`, `deflate_fast`, `fill_window` with
  its slide, `deflateSetDictionary` and every call of `deflate`. Positions in the window are related to absolute
  positions by a ghost base. `Dict.Ok` is the invariant of the hash chains: they hold all strings of a key that were
  inserted, the youngest first. The ghost map `hits` remembers what each search found; `Parsing.Tells` says that every
  token is the one that lazy or greedy evaluation chooses from these finds (`Parsing.Chosen`), and that no token
  reaches back across the last full flush (`Parsing.Restarts`).
- **Huffman coding** (`Canonical`, `TreeCodes`, `BitLengths`, `HuffmanCost`, `TreeLengths`, `NodeHeap`,
  `TreeBuilding`). Canonical codes are a function of the lengths alone; `Kraft` counts the strings of 15 bits that
  start with a code. `HuffmanCost` has the theorem that merging the two least weights gives a cheapest code.
- **Writing blocks** (`BitStream`, `Alphabet`, `BlockBody`, `RunLengths`, `TreeHeader`, `BlockForms`, `StaticTrees`,
  `FlushBlock`, `BlockWriting`). The bits of a block are the function `FormBits`; `BitWriter` has the 16-bit buffer and
  the pending bytes of the C code.
- **A decoder as a reference** (`Decoder`, `Reading`, `BlockFields`, `RunsTo`). One `Step` reads one field of RFC 1951
  from a sequence of bits; a symbol is the one whose canonical code is next. It has no tables, no buffer and no window.
- **Decode tables** (`Huft`, `HuftBuild`, `InfTrees`, `TableSpace`, `Lookups`, `TablesFit`, `InflateTrees`,
  `StaticCodes`, `TableLookup`). `huft_build` with its stack of open tables, and why its tables fit.
- **Inflate** (`BitBuffer`, `Window`, `Inflate`, `Decompress`). `Inflater` is `inflate_blocks`, `inflate_codes`,
  `inflate_fast` and `inflate_flush` over one circular window; every method takes steps of the reference decoder
  (`Core`: the ghost state `now` is `Run(start, steps)`). Between calls it is `Idle`: the state it is in needs bits that
  the buffer does not have, or room; so its answers Z_OK and Z_BUF_ERROR tell progress from none (`Answers`).
  `Decompressor` is `inflate` around it.
- **End to end** (`EndToEnd`). What the compressor wrote is what the decompressor restores, from the beginning or from
  behind a full flush.
- **Checksums and gmp** (`Adler`, `LimbDivision`, `StackAlloc`).

Words are natural numbers; masks, shifts and wrap-around are written out as arithmetic (`Low`, `Shl`, `Shr`, `Or`,
`Xor`). Where the code and its comments disagree, the code is followed: a comment in `zlib/inftrees.c` promises
Z_BUF_ERROR for every incomplete set of lengths, but sets whose tables do not fit are Z_DATA_ERROR
(`InflateTrees.LongCodeAlone`); `zlib/inftrees.h` calls the greatest size of the tables unknown, and
`InflateTrees.LiteralRoom` and `InflateTrees.DistanceRoom` bound it by 928 and 268 entries; `zlib/zlib.h` has inflate
return Z_OK for more input processed or more output produced, which with no room at all is not the same as a moved
next_in or next_out: at the end of a block bits may be taken from a byte that was read and is then handed back whole
behind them. So progress (`Inflating.Moved`) counts the bits taken as well; with any room it comes to next_in or next_out
having moved.

Dafny 4.11 checks everything with `dafny verify dfyconfig.toml`.

## Model

| member | source | states |
|---|---|---|
| `EndToEnd.RoundTrip` | zlib/compress.c:21-57 | compressing with any level but 0, strategy, window size, memLevel and preset dictionary, in one call, and then decompressing with a window at least as large gives back the input; compression fails only by filling all the room it has |
| `EndToEnd.Uncompress` | zlib/uncompr.c:25-58 | given an ended stream and room for its text, one call of inflate, or two around the dictionary it asks for, reaches the end and yields exactly the text behind the preset dictionary |
| `EndToEnd.RestoredText` | zlib/infblock.c:120-369 | however input and room are cut, and whatever bytes follow the stream, what has been put out is a beginning of what the compressor was given, and all of it once the last block is done |
| `EndToEnd.NotRefused` | zlib/inflate.c:150-275 | on a stream that the compressor ended there is never a reason for Z_DATA_ERROR: not the header, not a block, not the checksum |
| `EndToEnd.NeverWaits` | zlib/infcodes.c:92-101 | with all of an ended stream and enough room, the decompressor never stops for input, although it looks ahead; only a stream without checksum needs two more bytes behind it |
| `EndToEnd.FlushDelivers` | zlib/deflate.c:534-554 | after a completed sync or full flush, a decompressor that has all bytes so far and starves has put out all the input so far |
| `EndToEnd.Restart` | zlib/deflate.c:540-544 | a decompressor that starts at the offset of the last full flush, whatever is in its window and whatever follows the stream, meets no error and puts out a beginning of the text given after that flush, and all of it at the end |
| `EndToEnd.HeaderRead` | zlib/inflate.c:163-195 | the header that deflate writes passes every check of inflate, and says whether there is a preset dictionary and which checksum it has |
| `EndToEnd.SameBefore` | zlib/inflate.c:278-299 | deflate and inflate keep different parts of a long or short dictionary, but the text before the blocks ends in the part that deflate kept |
| `Deflate.Compressor.Call` | zlib/deflate.c:436-567 | input is never lost or reordered (taken text, then what waits); the bytes given out grow, by no more than the room; Z_BUF_ERROR exactly if there is no room, or nothing to do on a flush no stronger than the one before, or input behind the end; with room left before the end no input waits, and without a flush less than MIN_LOOKAHEAD bytes are undecided; Z_STREAM_END means that header, closed blocks and one trailer have all been given out, and with room left Finish ends so; after any other flush with room left all input is in delivered blocks; the barrier of a full flush moves only with a full flush |
| `Deflate.Compressor.DeflateSlow` | zlib/deflate.c:1235-1350 | lazy matching keeps the chain, window and text invariants, with the deferred literal: blocks and tokens expand to the text up to strstart, every token is the one the lazy rule chooses from what the searches found, and none reaches across the last full flush |
| `Deflate.Compressor.SlowStep` | zlib/deflate.c:1254-1341 | one iteration: a pending match of at least MIN_MATCH bytes becomes a token, with its length and distance, if and only if the search at the next string finds nothing longer; otherwise the byte before becomes a literal and what was found is pending; all complete strings passed are inserted; a block goes out exactly if the token buffers are full |
| `Deflate.Compressor.SearchSlow` | zlib/deflate.c:1264-1289 | there is a search exactly if the chain has a string within reach and the previous match is shorter than max_lazy and the strategy is not Huffman only; a find counts exactly if it is longer than the previous match and neither short under Z_FILTERED nor three bytes further back than TOO_FAR |
| `Deflate.Compressor.DeflateFast` | zlib/deflate.c:1139-1228 | the same for greedy matching and its rule |
| `Deflate.Compressor.FastStep` | zlib/deflate.c:1146-1222 | one iteration: a match of at least MIN_MATCH bytes that the search finds is the token, with its length and distance, otherwise the current byte is a literal; the current string is inserted if it is complete; a block goes out exactly if the token buffers are full |
| `Deflate.Compressor.SkipMatch` | zlib/deflate.c:1184-1211 | behind a match, the strings inside it are inserted, all of them, if it is no longer than max_insert_length and MIN_MATCH bytes follow, and otherwise none |
| `Deflate.Compressor.LongestMatch` | zlib/deflate.c:726-862 | looks at max_chain_length strings of the current key, the youngest first, or a quarter of that behind a good match; at fewer exactly if one of them is nice or all older ones are out of reach; the result is the first of the longest, cut to the lookahead, or the old match if none is longer |
| `Parsing.TellsMatch` | zlib/deflate.c:1293-1325 | a match token that the rule chooses keeps meaning, rule and barrier |
| `Parsing.TellsLiteral` | zlib/deflate.c:1326-1338 | the same for a literal |
| `Parsing.TellsBarrier` | zlib/deflate.c:542-543 | between two blocks a barrier can be put up: from there on the tokens have to say the text without what is before it |
| `Parsing.TellsHits` | zlib/deflate.c:1262-1285 | later searches change nothing of what has been chosen |
| `Deflate.Compressor.SlideWindow` | zlib/deflate.c:985-1017 | the slide moves window, links and pointers by one window size, and positions, text and chains stay what they were, even if match_start becomes negative |
| `Deflate.Compressor.SetDictionary` | zlib/deflate.c:291-329 | the text becomes the part of the dictionary that is kept, its last wSize - MIN_LOOKAHEAD bytes, all its complete strings are in the chains, and adler is the checksum of the whole dictionary |
| `Deflate.Compressor.FlushBlockOnly` | zlib/deflate.c:1055-1070 | exactly one more block: the tallied tokens, the number of bytes from block_start to strstart, and these bytes exactly if they are still in the window; it says these bytes, its stored form the same; it is written behind the others, and with room left nothing is pending |
| `Deflate.Compressor.EndFlush` | zlib/deflate.c:534-547 | a partial flush adds one or two empty static blocks, with at least nine bits behind the last code before; a sync or full flush one empty stored block that ends on a byte; a full flush empties all chains and puts up the barrier there, any other leaves chains and barrier alone |
| `Deflate.HeaderIs` | zlib/deflate.c:463-479 | the header is divisible by 31, names method 8, the window size and the level, and its dictionary bit is set exactly for a preset dictionary |
| `BlockOutput.SaysMatch` | zlib/deflate.h:302-312 | a token for a match within reach says the matched bytes: the 16 bits of distance and 8 bits of length lose nothing |
| `BlockOutput.SaysFlush` | zlib/deflate.c:1055-1061 | ending a block keeps what is said, and its stored form agrees with its tokens |
| `Chains.InsertOk` | zlib/deflate.c:175-178 | INSERT_STRING keeps all chains sound and complete: links go to the youngest older string of the same key; the returned head is that string |
| `Chains.SlideOk` | zlib/deflate.c:999-1016 | subtracting the window size from all links, cut at 0, keeps the chains sound and complete as far as the window reaches |
| `StringHash.ThirdByte` | zlib/deflate.c:815-827 | equal keys and equal first two bytes force equal third bytes, for every hash size from 8 to 16 bits |
| `StringHash.KeyPrimesNext` | zlib/deflate.c:150-158 | the rolling hash forgets: the key of one string is a valid running hash for the next |
| `MatchSearch.SearchIsMaximum` | zlib/deflate.c:773-858 | no visited candidate matches longer than the result, up to 258; a longer result is a visited candidate with exactly that match length |
| `MatchSearch.VisitedIsChain` | zlib/deflate.c:855-856 | the candidates visited are the strings inserted under the key of the current string, the youngest first with none left out, all but the first above limit |
| `MatchSearch.SearchIsLongest` | zlib/deflate.c:845-856 | the result is the first of the longest visited candidates, if one is longer than the old match, and otherwise the old match itself |
| `MatchSearch.VisitedEnds` | zlib/deflate.c:846-858 | the search ends only behind chain_length candidates, behind a nice match, or where the next is out of reach |
| `MatchSearch.NiceIsLast` | zlib/deflate.c:849 | no candidate but the last visited is a nice match longer than the old one |
| `MatchSearch.CompareRun` | zlib/deflate.c:826-842 | comparing from the third byte on in groups of eight finds the common length up to 258 |
| `MatchSearch.SearchChain` | zlib/deflate.c:773-858 | with its tests of two end bytes and its unchecked third byte, the loop finds what the brute-force search over the chain finds |
| `NodeHeap.PqDownHeap` | zlib/trees.c:456-479 | sifting down one node makes one more sub-heap, and only reorders the heap |
| `TreeBuilding.Merge` | zlib/trees.c:664-692 | the two nodes that become sons have the two least frequencies of all nodes not yet merged, of equal ones the less deep first; the new node has their sum and is one deeper than the deeper of them; the heap stays a heap |
| `TreeBuilding.BuildTree` | zlib/trees.c:620-701 | exactly the symbols that occur, and at most two forced ones, get a code of 1 to max_length bits; the Kraft sum is exactly 1; the codes are the canonical ones; opt_len and static_len are exact, forced codes not counted; a more frequent symbol never has a longer code, overflow or not; and no list of lengths with a Kraft sum of at most 1 that gives every occurring symbol a code takes fewer bits than opt_len, if the merge tree is no deeper than max_length, as it is if all frequencies together are less than the Fibonacci number of max_length + 3 |
| `HuffmanCost.CheapestCode` | zlib/trees.c:616-617 | the depths in a tree made by merging least weights cost no more than any other lengths with a Kraft sum of at most 1 |
| `HuffmanCost.LowerBound` | zlib/trees.c:664-692 | at every stage of the merging, lengths that fit cost at least the sum of the weights of all merges to come |
| `HuffmanCost.DepthsCost` | zlib/trees.c:664-692 | and the depths cost exactly that |
| `HuffmanCost.HeavierIsHigher` | zlib/trees.c:664-692 | a heavier node of such a tree is never deeper than a lighter one |
| `HuffmanCost.LightIsShallow` | zlib/trees.c:533-549 | a tree deeper than max has at least the Fibonacci number of max + 3 as weight; so gen_bitlen has nothing to repair below that |
| `TreeLengths.Repair` | zlib/trees.c:533-549 | for every even overflow that is twice the excess, the loop finds a shorter leaf each time and ends with a Kraft sum of exactly 1 and as many codes as before |
| `TreeLengths.GenBitlen` | zlib/trees.c:491-568 | lengths limited as declared, complete, for every merge tree, with exact costs also after a reassignment; they are the depths in the tree if it is not too deep, and otherwise still fall along the order of the merges |
| `TreeCodes.GenCodes` | zlib/trees.c:578-610 | every symbol with a length gets its canonical code, reversed; all others stay as they are |
| `Canonical.PrefixFree` | zlib/trees.c:588-596 | no canonical code is a prefix of another |
| `Canonical.Covered` | zlib/trees.c:596-598 | below the end of the codes every bit string starts with a code |
| `CodeReading.FrontIsUnique` | zlib/inftrees.c:131-143 | at most one symbol's code is at the front of a bit string |
| `CodeReading.CompleteReads` | zlib/inftrees.c:131-143 | with a complete set of lengths every string of 15 bits starts with some symbol's code |
| `Alphabet.TrStaticInit` | zlib/trees.c:239-317 | the filled tables map every length 3 to 258 and every distance up to 32768 to the code whose base and extra bits contain it, as the decoder's lists have them; 258 has its own code |
| `RunLengths.ItemsUnroll` | zlib/trees.c:752-797 | for all lengths, the run-length items of send_tree unroll to exactly these lengths |
| `FlushBlock.ScanTree` | zlib/trees.c:707-746 | the frequencies counted are those of the items that send_tree sends |
| `TreeHeader.SendAllTrees` | zlib/trees.c:838-862 | what is written is the header as specified: counts, code length codes in their order as far as one is used, run-length items of both trees |
| `TreeHeader.RunHeader` | zlib/infblock.c:216-305 | for all complete literal and distance lengths, the decoder reads such a header as exactly these lengths and goes on with them |
| `BlockBody.CompressBlock` | zlib/trees.c:1071-1116 | what is written are the codes and extra bits of all tokens and then the end of the block |
| `BlockBody.RunBody` | zlib/infcodes.c:121-216 | for every list of tokens that the codes can express, the decoder reads these bits as the text they expand to, and then stops at the end of the block |
| `BlockForms.RunBlock` | zlib/infblock.c:137-230 | a block in any of its three forms is read as what its tokens mean |
| `BlockForms.RunPieces` | zlib/infblock.c:137-369 | a whole sequence of blocks is read as its text, and behind the last one the decoder is done |
| `FlushBlock.BodyCost` | zlib/trees.c:552-566 | frequencies times code lengths are exactly the bits of the tokens and the end of the block |
| `FlushBlock.TrFlushBlock` | zlib/trees.c:921-1001 | the form is the one that the predicted sizes select; the bits written are those of that form; opt_len + 3 and static_len + 3 are exactly their number |
| `FlushBlock.BuildBlTree` | zlib/trees.c:803-831 | a tree that can send all lengths of both trees, the shortest list of its lengths in their order, and the exact size of the header |
| `BlockWriting.BlockWriter.WriteBlock` | zlib/trees.c:921-1001 | the block joins those written; what the application gets only grows, by what the room allows; with room left nothing is pending |
| `BlockWriting.BlockWriter.TrAlign` | zlib/trees.c:892-915 | one empty static block, or two, so that at least nine bits in whole bytes lie behind the last code |
| `BlockWriting.BlockWriter.StoreNothing` | zlib/trees.c:867-879 | an empty stored block, ending on a byte |
| `BitOutput.BitWriter.SendBits` | zlib/trees.c:192-229 | the low bits of value are appended to all bits sent, across the 16-bit buffer |
| `BitOutput.BitWriter.BiWindup` | zlib/trees.c:1173-1186 | less than eight zero bits, up to a byte |
| `BitOutput.BitWriter.PutByte` | zlib/deflate.h:255 | run only when nothing pending has been given out in part; one more byte behind all others |
| `BitOutput.BitWriter.FlushPending` | zlib/deflate.c:416-433 | bytes move from pending to output in order, none lost; either the room is used up or nothing is pending |
| `InflateTrees.BuildTables` | zlib/inftrees.c:93-290 | an oversubscribed set is Z_DATA_ERROR, a set that has no room too, and a set with room never; Z_OK and Z_BUF_ERROR tell complete from incomplete sets; the root table has the bits asked for, or those of the longest or shortest code if that is shorter or longer; earlier tables stay; if no level is skipped, following the tables finds for every bit string the symbol whose canonical code is at its front after exactly its bits, and the invalid entry if there is none, and never leaves the tables |
| `InflateTrees.ReachSkipsNone` | zlib/inftrees.c:201-246 | no level is skipped if two levels reach the longest code, or if the set is complete and small |
| `InflateTrees.SkippedLevel` | zlib/inftrees.c:201-246 | the lengths 1, 3, 3, 3, 3 with tables of one bit: complete and yet a level is skipped |
| `InflateTrees.LongCodeAlone` | zlib/inftrees.c:227-230 | a single length of 15 is incomplete, not oversubscribed, and has no room at all |
| `InflateTrees.LiteralRoom` | zlib/inftrees.h:28-33 | the tables for any usable set of at most 288 literals and lengths take at most 928 entries |
| `InflateTrees.DistanceRoom` | zlib/inftrees.h:28-33 | the tables for any usable set of at most 30 distances take at most 268 more, behind those for literals |
| `InflateTrees.InflateTreesBits` | zlib/inftrees.c:293-317 | succeeds exactly for usable sets with a code; the table decodes them |
| `InflateTrees.InflateTreesDynamic` | zlib/inftrees.c:320-381 | succeeds exactly if both sets are usable, there is a literal, and there are distances if there are lengths; the tables decode both, with roots of 9 and 6 bits where the codes allow it |
| `InflateTrees.InflateTreesFixed` | zlib/inftrees.c:398-454 | the fixed tables fit into FIXEDH entries and decode the fixed codes |
| `HuftBuild.Builder.MakeTables` | zlib/inftrees.c:201-246 | after the loop the code ends in the innermost open table; all entries so far stay right; it fails only if the tables do not fit |
| `TableSpace.MixedTable` | zlib/inftrees.c:208-221 | a table with codes of several lengths is larger than all earlier ones at its level, which is why so few entries suffice |
| `TableSpace.EqualTable` | zlib/inftrees.c:208-221 | a table with codes of one length has a code for every entry |
| `TableLookup.NextEntry` | zlib/infcodes.c:121-157 | the entry for the next bits is in the table, and either leads on in the same lookup or ends it |
| `TableLookup.LengthFound` | zlib/infcodes.c:121-157 | what a lookup ends with is the literal, length, end of block or error that the canonical codes give, after as many bits |
| `TableLookup.DistanceFound` | zlib/infcodes.c:166-188 | the same for distances |
| `Decoder.StepOk` | zlib/infblock.c:137-369 | every step of the reference decoder keeps its state in order, never goes back in the stream and only adds to the text |
| `BitBuffer.HoldsByte` | zlib/infutil.h:76 | a byte or-ed in above k bits leaves the buffer in agreement with the stream, even where bits above k are set already |
| `BitBuffer.HoldsPeek` | zlib/infcodes.c:123 | the low bits of the buffer are the next bits of the stream |
| `BitBuffer.ReturnBytes` | zlib/inffast.c:21 | handing back whole bytes is harmless: all set bits above the new count agree with the stream, and nothing exceeds 32 bits |
| `CircularWindow.PutByte` | zlib/infutil.h:82 | while WAVAIL is positive, a written byte overwrites no byte that is still to be delivered, and none of the last window of text |
| `CircularWindow.Wrapped` | zlib/infutil.h:79 | wrapping the write pointer changes nothing of what the window holds |
| `CircularWindow.Delivered` | zlib/infutil.c:23-87 | the bytes between read and write are the next bytes of the text, also across the end of the window |
| `CircularWindow.ByteBack` | zlib/infcodes.c:198-204 | the byte at a distance, modulo the window size, is that byte of the text |
| `CircularWindow.SourceIs` | zlib/inffast.c:94-108 | wrapping the source pointer by comparison, as often as needed, gives this slot |
| `Inflating.Inflater.FastSymbol` | zlib/inffast.c:57-170 | with 10 bytes of input and 258 of room, one iteration takes steps of the reference decoder, stays within these reserves (7 bytes, one match), and ends in the state that inflate_codes would be in |
| `Inflating.Inflater.InflateFast` | zlib/inffast.c:28-183 | the same for the whole loop, with less than 16 bits left in the buffer |
| `Inflating.Inflater.InflateCodes` | zlib/infcodes.c:81-242 | slow and fast path together: steps of the reference decoder only; stops at the end of the block, at an error, or for lack of input or room, in a state that cannot go on without; Z_BUF_ERROR only if it was given and nothing at all was done |
| `Inflating.Inflater.InflateBlocks` | zlib/infblock.c:120-369 | the same for all block modes; Z_STREAM_END exactly when all is delivered, Z_DATA_ERROR exactly at an error; otherwise Z_BUF_ERROR only if it was given and nothing moved, and Z_OK only if it was given or something did |
| `Inflating.Inflater.Flush` | zlib/infutil.c:23-87 | delivers in order as much as fits, and check is the checksum of what was delivered; Z_BUF_ERROR becomes Z_OK exactly if something was delivered |
| `Inflating.Inflater.Call` | zlib/infblock.c:120-369 | the output only grows, within the room; Z_DATA_ERROR exactly if the reference decoder finds the stream invalid; Z_BUF_ERROR, if given, stays exactly if no bit was taken and no byte put out; if nothing waits in the window, the output is all the text decoded so far, and the call ended because the stream is done, invalid or starved; it is idle again |
| `Inflating.OneOutput` | zlib/infblock.c:120-369 | resuming: two runs over one stream, cut in any two ways with any room, put out beginnings of one text |
| `Decompression.Decompressor.Call` | zlib/inflate.c:150-275 | header, dictionary, blocks and checksum byte by byte; Z_STREAM_END exactly at a matching checksum; Z_DATA_ERROR only for a faulty header, block or checksum; otherwise it waits for input or room, and the answer is Z_OK exactly if Z_FINISH is not given and there was progress, and else Z_BUF_ERROR; with any room, progress is next_in moved or output grown |
| `Decompression.Decompressor.SetDictionary` | zlib/inflate.c:278-299 | accepted exactly if its checksum is the one in the header; blocks begin with its last bytes as text |
| `Adler.Adler32` | zlib/adler32.c:21-48 | with remainders taken only every NMAX bytes, the result is the byte-by-byte checksum, for every starting word |
| `Adler.NoOverflow` | zlib/adler32.c:12-13 | within NMAX bytes no sum leaves 32 bits |
| `Adler.ChecksumConcat` | zlib/adler32.c:21-48 | going on from the checksum of x over y gives the checksum of x followed by y |
| `LimbDivision.UmulIsProduct` | gmp/longlong.h:1193-1216 | umul_ppmm is the exact double-limb product, for every even-bit limb base |
| `LimbDivision.UdivIsExact` | gmp/longlong.h:1233-1267 | __udiv_qrnnd_c is exact for every normalized d and every n1 < d |
| `LimbDivision.PreinvIsExact` | gmp/gmp-impl.h:694-719 | udiv_qrnnd_preinv is exact with at most three corrections |
| `LimbDivision.Preinv2NormIsExact` | gmp/gmp-impl.h:741-757 | the branch-free udiv_qrnnd_preinv2norm is exact |
| `LimbDivision.DivisionByReciprocal` | gmp/gmp-impl.h:678-757 | with the reciprocal that invert_limb computes through __udiv_qrnnd_c, both give the true quotient and remainder |
| `StackAlloc.Allocator.Alloc` | gmp/stack-alloc.c:41-92 | a new block behind the live ones, in the last chunk or in a new one on top that makes the total half as much again as ever before, if that is needed; all marks stay good |
| `StackAlloc.Allocator.Mark` | gmp/stack-alloc.c:97-108 | remembers exactly the chunks and blocks there are |
| `StackAlloc.Allocator.Free` | gmp/stack-alloc.c:112-136 | whatever was allocated since, chunks, allocation points and live blocks are those of the time of the mark again, and the total is the sum of the payloads |
| `StackAlloc.BlocksDisjoint` | gmp/stack-alloc.c:86-92 | no byte belongs to two live blocks |
| `StackAlloc.HeadersUntouched` | gmp/stack-alloc.c:77-92 | live blocks are aligned, inside their chunk and outside the header of every chunk |

## Left out

- Deflate.Compressor.Call: the level and strategy are fixed for a run (no deflateParams), and deflate_stored (level 0) is not modelled.
- deflateReset, deflateCopy, inflateReset, inflateSync, inflateSyncPoint and inflate_blocks_reset are not modelled; an object serves one stream.
- Deflate.Compressor.SetDictionary: states one call before the first deflate; a second one, whose checksum would go on from the first, is not covered.
- The sharing of memory between pending_buf, d_buf and l_buf, and the capacity of pending_buf, are not modelled: pending bytes, tokens and window are separate.
- Allocation failure, null pointers, version checks, msg strings, data_type and total_in/total_out are not modelled.
- The variants FASTEST, UNALIGNED_OK, MAXSEG_64K, 16-bit, ASMV, DEBUG and PKZIP_BUG_WORKAROUND are not modelled.
- InflateTrees.BuildTables: says nothing about the tables of a set with a skipped level; that they are never right is not proved. None of the callers in the repository can bring such a set.
- InflateTrees.BuildTables: for an incomplete set it says when there is certainly room and when there is certainly none, not what happens in between; the callers refuse all incomplete sets but single codes of one bit.
- Inflating.Inflater.Call: the tables of a block are values that the modes hold, copied from hufts when they are built; that hufts itself is untouched until the next dynamic block is not stated.
- Inflating.Inflater.Call: one contiguous input; where the returned bytes lie when the application moves its input between calls is not modelled.
- Decompression.Decompressor.Call: check functions other than adler32 are not modelled.
- TreeBuilding.BuildTree: if the merge tree is deeper than max_length, the repaired lengths are complete and fall with the frequencies, but are not claimed to be the cheapest limited lengths; the method of gen_bitlen does not aim at that.
- Deflate.Compressor.Call: frequencies are counted at the end of a block from its tokens rather than token by token; FlushBlock.TrTally shows that this is the same.
- BlockWriting.BlockWriter.TrAlign: states the nine bits behind the last code; the promise of a partial flush for old decoders is not modelled further.
- StackAlloc.Allocator.Alloc: addresses and totals do not wrap around; that memory from the underlying allocator is aligned and not in use is its precondition.
- gmp: modlimb_invert, udiv_qrnnd_preinv2gen and the mpn kernels are not modelled; the limb base is any even power of two.
- zlib/crc32.c, zlib/gzio.c and the example programs are thin or finite checking; zlib/inffixed.h and zlib/trees.h are replaced by the construction of their contents.
