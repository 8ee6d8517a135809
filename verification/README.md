# NetAnalyzer: models of its codecs, reassemblers and parsers

NetAnalyzer watches network traffic, puts fragments and TCP streams together again, decodes the HTTP messages in
them, and brings a set of compressors along. This project models the parts of it whose correctness is not
evident from reading them, and proves what they promise. Each module follows one source file or one concept of
it. What the program does in loops over buffers, maps and fields is written as classes and methods that change
state; each method is proved to compute a function, or to keep a relation, of the old state, and lemmas prove
what the program promises about that function or relation.

**LZ4** (`Lz4Format`, `Lz4Decoder`, `Lz4RoundTrip`, `Lz4Search`, `Lz4Runs`, `Lz4Encoder`). A block is a list of
sequences (literals and a back reference); it has a meaning (the data it expands to) and a serialization. The
compressor, hash table with 16-bit truncation and all, writes the serialization of a block that means its input
and has exactly the matches that a rule on the positions entered so far tells; the decompressor is characterised
for every input, malformed ones included; the two meet in the round trip and the size bound. All positions are
offsets into the buffers.

**QuickLZ** level 1 (`QuickLzFormat`, `QuickLzGreedy`, `QuickLzRuns`, `QuickLzDecompress`, `QuickLzCompress`,
`QuickLzStream`). A match carries a hash instead of a distance, so the receiver must rebuild the sender's hash
table from what it has decoded so far. A plan (list of items) fixes what both tables contain after each item;
the sender's fast path, the receiver's lagging table and the streaming buffer are proved against it, over any
number of packets; which plan it is, and whether it is used, is told by a rule on the data.

**Huffman** (`HuffmanTree`, `BitStream`, `HuffmanCoder`, `HuffmanCost`, `HuffmanGreedy`, `HuffmanBuilder`,
`HuffmanPipeline`). The greedy merge is optimal and its depth is bounded by Fibonacci numbers; codes go through
64-bit words bit by bit; encoder and decoder keep their state between calls. The pipeline theorem goes from
counting bytes to the decoded data, and says exactly when it comes back.

**HTTP** (`Buffers`, `HttpSemantics`, `HttpFraming`, `HttpDecoder`, `HttpExchange`). Both directions of a
connection are a state machine of smallest steps over the bytes waiting in a buffer. The decoder makes the calls
of that machine's run whichever way the bytes are cut into packets, and the run over well-framed messages
reports them exactly.

**TCP** (`TcpDirection`, `TcpRuns`, `TcpHandover`, `TcpArrivals`, `TcpConnections`, `TcpDelivery`,
`TcpSessions`, `TcpReassembler`). One direction orders segments; the reassembler keeps a map of streams and
calls listeners. What a listener hears is what one direction alone makes of its segments, until one of the
events of `TcpSessions.ClosesExactly`; so the results on one direction are results on connections. `advance`
tells whether handing over a buffered segment moves the expected number on. The code as written does not
(NetAnalyzer/src/network/processors/TCPReassembler.cpp:76-97): that is `advance == false`; the classes and the
invariants of connections cover both. With the advance the bytes given are always a prefix, and in the end the
whole stream. As written, a call that joins a buffered segment on hands it over without counting it:
`OrderedExactly` and `RunOrderedExactly` say for which inputs the given bytes still match the expected number,
`TcpArrivals.HandedExactly` and `DeliveredExactly`, from the order of arrival alone, for which the whole stream
is delivered, and `SwappedSegments` gives three segments for which it is not. A SYN-ACK that comes again sets
the number of the answering side back, with or without the advance: `RepeatedSynAck` gives a run in which the
listener hears a byte twice, and `SynAckExactly` says that delivery stays right if and only if the SYN-ACK
leaves the number as it is, which is what `RunDelivers` asks of the SYN-ACKs of a run.

**IPv4** (`Ipv4Fragments`, `Ipv4Reassembler`). Fragments are copied into a 64K buffer per id until the lengths
add up. The result does not depend on their order or on traffic in between, and is right exactly when no
fragment came twice and the whole fits the length field that its listeners read it by.

**LZW** (`LzwWords`, `LzwLearned`, `LzwDict`, `LzwCodec`, `LzwPipeline`). The dictionary is a set of numbered
words that the data tell, kept as a tree of nodes for encoding and as a flat list for decoding. Both stay in
agreement, and coding with them loses nothing.

**tinyxml2** (`XmlText`, `XmlPrinter`, `XmlParser`, `XmlRoundTrip`, `XmlExact`, `XmlLines`, `XmlReader`). The
printer is proved to print what a structural definition says, the parser to read what a small grammar says, and
the grammar to read back what the definition prints, for exactly the documents that `XmlExact.RoundTripExactly`
names and whichever way lines are ended.

Where code and comments differ, the models follow the code: the total of `HuffmanBuilder` starts at 257 even if
only the end marker is counted; `LZWDictStream` allocates half of the bytes it is asked for; a TCP stream hands
buffered segments over without moving the expected number, and takes its number anew from every SYN-ACK;
messages without a body get no end-of-message call, nor do those whose body goes on until the close; a fragment
that arrives twice is counted twice; the sizes that `getCompressedSize` adds up are 32-bit products.

## Model

| member | source | states |
|---|---|---|
| Lz4Encoder.RoundTrip | NetAnalyzer/src/lib/LZ4/lz4.h:63-70 | compressing any input and decompressing the result, with any output limit of at least the input size, gives exactly the input and its size |
| Lz4Encoder.Compress | NetAnalyzer/src/lib/LZ4/lz4.c:476-491 | the output is the serialization of a block whose meaning is the input, is no larger than `n + n/255 + 16`, and has exactly the matches that the table of the right width offers first, each caught up and counted to its end, until none is left |
| Lz4Search.OneTrace | NetAnalyzer/src/lib/LZ4/lz4_encoder.h:119-235 | these rules leave no choice: an input has one block by them |
| Lz4Encoder.EqualBytes | NetAnalyzer/src/lib/LZ4/lz4_encoder.h:119-248 | n equal bytes, 14 or more, are compressed to 10 bytes if n < 25, else to 11 + (n - 25) / 255 |
| Lz4Encoder.CompressBlock | NetAnalyzer/src/lib/LZ4/lz4_encoder.h:93-252 | the same for either table width; the 64K variant refuses larger inputs |
| Lz4Encoder.CompressSequences | NetAnalyzer/src/lib/LZ4/lz4_encoder.h:119-235 | what the main loop has written always expands to the input up to the anchor, keeps the end-of-block margins, and has cost at most 256/255 of it; it ends where nothing more can be found |
| Lz4Encoder.FindMatch | NetAnalyzer/src/lib/LZ4/lz4_encoder.h:126-144 | stops at the first position looked at whose entry, the latest position entered with its hash, is at most 65535 back and stands for the same four bytes; finds nothing if and only if there is none in reach |
| Lz4Encoder.Enter | NetAnalyzer/src/lib/LZ4/lz4_encoder.h:140-142 | every cell holds the latest position entered that hashes to it: none is changed by the width of the table, because matches start far enough from the end of at most 64K and 11 bytes |
| Lz4Encoder.CatchUp | NetAnalyzer/src/lib/LZ4/lz4_encoder.h:146-147 | a match extended backwards still repeats, keeps its distance, and begins at the first byte that agrees |
| Lz4Encoder.CountMatch | NetAnalyzer/src/lib/LZ4/lz4_encoder.h:191-204 | the match is exactly as long as the bytes agree, up to the last five |
| Lz4Encoder.CommonBytes | NetAnalyzer/src/lib/LZ4/lz4.c:253-281 | the number of equal bytes before the first difference of two words |
| Lz4Encoder.EmitLiterals | NetAnalyzer/src/lib/LZ4/lz4_encoder.h:149-185 | token, length run and literals as the format has them, in spite of copies eight bytes wide |
| Lz4Encoder.EmitMatch | NetAnalyzer/src/lib/LZ4/lz4_encoder.h:187-219 | offset, match length in the token and its run behind, and the match repeats all the way |
| Lz4Encoder.EmitSequence | NetAnalyzer/src/lib/LZ4/lz4_encoder.h:187-222 | pending literals and a match become one more sequence of the block |
| Lz4Encoder.TestNext | NetAnalyzer/src/lib/LZ4/lz4_encoder.h:224-230 | the positions two back and at the end of a match are entered; a match is found at once if and only if the entry for that end is near and stands for the same four bytes |
| Lz4Encoder.EmitMatches | NetAnalyzer/src/lib/LZ4/lz4_encoder.h:187-233 | a chain of matches without literals keeps what is written equal to the input so far |
| Lz4Encoder.EmitLast | NetAnalyzer/src/lib/LZ4/lz4_encoder.h:237-248 | the last literals, within the size bound |
| Lz4Encoder.SequenceCost | NetAnalyzer/src/lib/LZ4/lz4.h:78 | no sequence costs more than 256/255 of the bytes it stands for |
| Lz4Decoder.DecompressSafe | NetAnalyzer/src/lib/LZ4/lz4_decoder.h:105-206 | for every input, well formed or not: the decoded bytes and their number, or minus the position of the error, exactly as the format says, without leaving either buffer; for a zero offset the number |
| Lz4Decoder.DecodeSequence | NetAnalyzer/src/lib/LZ4/lz4_decoder.h:116-193 | one step: literals, match, end or error with its position |
| Lz4Decoder.DecodeMatch | NetAnalyzer/src/lib/LZ4/lz4_decoder.h:147-193 | the offset test, the length run that stops six bytes before the end of input, and the test against the last five output bytes |
| Lz4Decoder.ReadLengthLoop | NetAnalyzer/src/lib/LZ4/lz4_decoder.h:116-127 | reads a length run, also one that the input cuts short |
| Lz4Decoder.CopyMatchInto | NetAnalyzer/src/lib/LZ4/lz4_decoder.h:165-193 | the table-driven copy with eight-byte steps equals the byte-by-byte overlapping copy for every offset of at least 1 and every length |
| Lz4Decoder.StartNearMatch | NetAnalyzer/src/lib/LZ4/lz4_decoder.h:166-179 | after the first eight bytes of a copy from 1 to 7 back the gap is a multiple of the offset and at least eight |
| Lz4Decoder.TablesKeepPeriod | NetAnalyzer/src/lib/LZ4/lz4_decoder.h:99-102 | the two correction tables add up to multiples of every offset |
| Lz4Decoder.WildCopyMatch | NetAnalyzer/src/lib/LZ4/lz4.c:244 | copying on in steps of eight continues the period, in whole steps and never past the end of the output |
| Lz4Decoder.WildCopyLiterals | NetAnalyzer/src/lib/LZ4/lz4.c:244-245 | literals copied in steps of eight are all there |
| Lz4Format.CopyMatchIsPeriodic | NetAnalyzer/src/lib/LZ4/lz4_decoder.h:165-193 | an overlapping copy repeats the last `offset` bytes over and over |
| Lz4RoundTrip.DecompressedSerialized | NetAnalyzer/src/lib/LZ4/lz4_decoder.h:110-198 | decoding a serialized block gives its meaning under every sufficient limit; the end-of-block margins are what the decoder's tests need |
| Lz4RoundTrip.FaultFound | NetAnalyzer/src/lib/LZ4/lz4_decoder.h:139-198 | behind any well-formed sequences the first one whose offset reaches beyond the data, or whose match reaches into the last five bytes of the output, is refused, with the position right behind its offset or its length |
| Lz4RoundTrip.ReadSequence | NetAnalyzer/src/lib/LZ4/lz4_decoder.h:116-163 | the decoder reads back each serialized sequence |
| QuickLzStream.StreamRoundTrip | NetAnalyzer/src/lib/QuickLZ/quicklz.c:729-847 | any non-empty packets, each compressed by one sender and decompressed in order by one receiver, both zeroed at the start, come out as they went in |
| QuickLzStream.CompressState.Compress | NetAnalyzer/src/lib/QuickLZ/quicklz.c:729-807 | an empty or oversized packet gives nothing; any other a packet at most 400 bytes larger, whose body is the one plan that the choices of the encoder leave, or the payload if that saves too little, and nothing else; the tables describe what both sides then share |
| QuickLzStream.StoredExactly | NetAnalyzer/src/lib/QuickLZ/quicklz.c:744-785 | a packet is stored if and only if, where a control word is due in its second half, the plan so far saves less than a 32nd |
| QuickLzGreedy.OneOutcome | NetAnalyzer/src/lib/QuickLZ/quicklz.c:266-507 | there is only one such plan, and a packet is never both compressed by it and given up |
| QuickLzStream.RunOutcome | NetAnalyzer/src/lib/QuickLZ/quicklz.c:298-337 | equal bytes in the first packet are compressed, to at most four bytes for every 255 and 51 more |
| QuickLzStream.DecompressState.Decompress | NetAnalyzer/src/lib/QuickLZ/quicklz.c:809-847 | the next packet of the stream gives its payload, and the receiver stays in step; stored packets and resets included |
| QuickLzStream.Transfer | NetAnalyzer/src/lib/QuickLZ/quicklz.c:729-847 | one packet through both sides keeps them in step |
| QuickLzStream.CompressState.CompressBody | NetAnalyzer/src/lib/QuickLZ/quicklz.c:744-785 | the body encodes the packet, or stores it when that saves too little |
| QuickLzStream.HeaderRoundTrip | NetAnalyzer/src/lib/QuickLZ/quicklz.c:177-200 | the size functions read back what a header was built from |
| QuickLzCompress.CompressCore | NetAnalyzer/src/lib/QuickLZ/quicklz.c:255-550 | the body, if there is one, encodes the packet by the greedy plan; table and control words are complete; without a body a beginning of that plan saved too little |
| QuickLzCompress.MainLoop | NetAnalyzer/src/lib/QuickLZ/quicklz.c:266-507 | every prefix of the output encodes a prefix of the data by the greedy plan |
| QuickLzCompress.TailLoop | NetAnalyzer/src/lib/QuickLZ/quicklz.c:508-546 | the last bytes as literals, the last control word padded |
| QuickLzCompress.Lookup | NetAnalyzer/src/lib/QuickLZ/quicklz.c:291-296 | the entry replaced is the latest position of that hash; the cached bytes agree in three or in four exactly if the data does |
| QuickLzCompress.UsableStands | NetAnalyzer/src/lib/QuickLZ/quicklz.c:298-299 | a position the encoder accepts, including the run just before, is one the decoder will find under the same hash with equal bytes |
| QuickLzCompress.MatchLength | NetAnalyzer/src/lib/QuickLZ/quicklz.c:316-337 | a match is as long as the bytes agree, 255 at most, and leaves four literals |
| QuickLzCompress.Usable | NetAnalyzer/src/lib/QuickLZ/quicklz.c:298-299 | an entry is used if and only if it is there, three bytes agree, and it is at least three bytes back or one byte back in a run of seven behind three literals |
| QuickLzCompress.ItemIsChosen | NetAnalyzer/src/lib/QuickLZ/quicklz.c:288-363 | told from the plan alone: an item of the main loop is a match if and only if the latest position with its hash can be used, and then as long as possible |
| QuickLzCompress.PoorExactly | NetAnalyzer/src/lib/QuickLZ/quicklz.c:281-284 | the test for giving up, on what the plan so far is written as |
| QuickLzCompress.Same | NetAnalyzer/src/lib/QuickLZ/quicklz.c:56-62 | all bytes of the window are equal |
| QuickLzCompress.ChooseItem | NetAnalyzer/src/lib/QuickLZ/quicklz.c:288-363 | the next item stands for the data and the tables follow |
| QuickLzCompress.StoreControl | NetAnalyzer/src/lib/QuickLZ/quicklz.c:279-283 | control words stand in front of the 31 items they describe |
| QuickLzDecompress.DecompressCore | NetAnalyzer/src/lib/QuickLZ/quicklz.c:552-727 | given a body that encodes a plan, writes the plan's data and rebuilds the encoder's table |
| QuickLzDecompress.UpdateHashUpto | NetAnalyzer/src/lib/QuickLZ/quicklz.c:245-253 | the lagging table knows exactly the positions hashed so far |
| QuickLzDecompress.LookupFindsSource | NetAnalyzer/src/lib/QuickLZ/quicklz.c:596-609 | the entry behind a token is the position the encoder meant although the table lags by up to two bytes |
| QuickLzDecompress.MemcpyUp | NetAnalyzer/src/lib/QuickLZ/quicklz.c:202-222 | a copy in overlapping words equals the overlapping copy, from three bytes back on |
| QuickLzDecompress.MatchStep | NetAnalyzer/src/lib/QuickLZ/quicklz.c:589-676 | a match item is decoded and everything stays in step |
| QuickLzDecompress.LiteralStep | NetAnalyzer/src/lib/QuickLZ/quicklz.c:678-699 | a run of literals, counted from the control word, is decoded four at a time |
| QuickLzDecompress.BitlutCountsZeros | NetAnalyzer/src/lib/QuickLZ/quicklz.c:561 | the look-up table counts trailing zero bits |
| QuickLzDecompress.CopyTail | NetAnalyzer/src/lib/QuickLZ/quicklz.c:700-717 | the last bytes are copied, control words skipped |
| QuickLzFormat.LittleEndianRoundTrip | NetAnalyzer/src/lib/QuickLZ/quicklz.c:99-175 | words are read as they were written |
| HuffmanBuilder.Builder.GetTree | NetAnalyzer/src/compression/own/HuffmanBuilder.cpp:122-185 | the leaves are exactly the counted symbols; while the counts sum to less than 2^32 the tree is optimal and deep leaves are rare |
| HuffmanBuilder.NoTreeIsCheaper | NetAnalyzer/src/compression/own/HuffmanBuilder.cpp:122-185 | no tree over the same leaves has a smaller sum of occurrence times depth |
| HuffmanBuilder.MergeKeeps | NetAnalyzer/src/compression/own/HuffmanBuilder.cpp:147-181 | one merge keeps leaves, optimality and depth bound for every insertion that keeps the order, which is all that is used of the multiset |
| HuffmanGreedy.MergeKeepsOptimal | NetAnalyzer/src/compression/own/HuffmanBuilder.cpp:147-181 | after every merge, wherever among its equals the new node goes, the forest can still be completed to a tree no worse than any other |
| HuffmanCost.Reduce | NetAnalyzer/src/compression/own/HuffmanBuilder.cpp:141-146 | any tree can be turned, at no cost, into one where the two rarest entries are one leaf, plus that merge |
| HuffmanCost.CollapseCost | NetAnalyzer/src/compression/own/HuffmanBuilder.cpp:159-167 | joining the deepest pair saves exactly its weight |
| HuffmanGreedy.MergeKeepsOrder | NetAnalyzer/src/compression/own/HuffmanBuilder.cpp:147-181 | wherever the new node goes, no child ever outweighs the sibling of its parent |
| HuffmanGreedy.DeepLeafIsRare | NetAnalyzer/src/compression/own/HuffmanBuilder.cpp:147-181 | a leaf at depth d forces a total weight of at least Fib(d + 2) |
| HuffmanGreedy.HeavyTree | NetAnalyzer/src/compression/own/HuffmanBuilder.cpp:147-181 | a tree of height h weighs at least Fib(h + 2) |
| HuffmanBuilder.CodesStayShort | NetAnalyzer/src/compression/own/HuffmanTree.cpp:43-68 | fewer than Fib(35) = 9227465 counts keep every code within 32 bits |
| HuffmanBuilder.CodesOfCounted | NetAnalyzer/src/compression/own/HuffmanBuilder.cpp:128-139 | exactly the counted symbols and the end marker have codes |
| HuffmanBuilder.Builder.constructor | NetAnalyzer/src/compression/own/HuffmanBuilder.cpp:23-34 | one count for the end marker, one for every byte if asked for; the total starts at 257 either way |
| HuffmanBuilder.Builder.SetCounterValues | NetAnalyzer/src/compression/own/HuffmanBuilder.cpp:48-55 | the 256 counts are set, the end marker's stays, the total is their sum |
| HuffmanBuilder.Builder.Append | NetAnalyzer/src/compression/own/HuffmanBuilder.cpp:57-62 | every byte is counted as often as it occurs, modulo 2^32 |
| HuffmanPipeline.GetCompressedSize | NetAnalyzer/src/compression/own/HuffmanBuilder.cpp:89-119 | the bits of all counted bytes without the end marker, each product taken modulo 2^32, rounded up to bytes |
| HuffmanPipeline.PredictedExactly | NetAnalyzer/src/compression/own/HuffmanBuilder.cpp:107-111 | that is the size of the encoding if and only if no product leaves 32 bits |
| HuffmanPipeline.SmallCountsPredicted | NetAnalyzer/src/compression/own/HuffmanBuilder.cpp:107-111 | and so it is for counts of less than 9227465 in all |
| HuffmanPipeline.EncodedLength | NetAnalyzer/src/compression/own/HuffmanBuilder.cpp:89-119 | the cost of a tree over the counts of some data is the length of its encoding with the end marker |
| HuffmanPipeline.ShortestEncoding | NetAnalyzer/src/compression/own/HuffmanBuilder.cpp:122-185 | the built tree encodes the counted data in the fewest bits |
| HuffmanPipeline.TrainedRoundTrip | NetAnalyzer/src/compression/own/HuffmanEncoder.cpp:29-44 | train, encode in any chunks, decode in any pieces: the data comes back if and only if all bytes were ensured, or something was counted and every byte of the data was |
| HuffmanCoder.RoundTrip | NetAnalyzer/src/compression/own/HuffmanDecoder.cpp:36-85 | for any tree with codes of at most 32 bits: exactly the data comes back, whatever the padding, if and only if the tree has two leaves and every byte a code |
| HuffmanCoder.Compress | NetAnalyzer/src/compression/own/HuffmanEncoder.cpp:29-44 | handing over complete words after each chunk and rewinding loses nothing; closing adds the end marker and padding |
| HuffmanCoder.Decompress | NetAnalyzer/src/compression/own/HuffmanDecoder.cpp:36-85 | decoding piece by piece is decoding all bits until the end marker, a null child or the last piece |
| HuffmanCoder.HuffmanDecoder.Append | NetAnalyzer/src/compression/own/HuffmanDecoder.cpp:36-85 | one call walks on from the node of the last call through the words not read yet; output, result and node for each outcome |
| HuffmanCoder.HuffmanEncoder.Append | NetAnalyzer/src/compression/own/HuffmanEncoder.cpp:29-36 | the codes of all bytes are appended in order |
| HuffmanCoder.HuffmanEncoder.Close | NetAnalyzer/src/compression/own/HuffmanEncoder.cpp:38-44 | the end marker and padding up to a word |
| HuffmanCoder.EncodeLut.Fill | NetAnalyzer/src/compression/own/HuffmanTree.cpp:43-68 | the table holds every path, as far as 32 bits go |
| HuffmanTree.CodeLeadsToLeaf | NetAnalyzer/src/compression/own/HuffmanTree.cpp:43-68 | every code leads to a leaf of its symbol |
| HuffmanTree.CodesArePrefixFree | NetAnalyzer/src/compression/own/HuffmanTree.cpp:43-68 | no code begins another |
| HuffmanTree.RoundTripExactly | NetAnalyzer/src/compression/own/HuffmanDecoder.cpp:36-85 | on bits: exactly when decoding gives the data back, including the tree of a single leaf |
| HuffmanTree.DecodeResumes | NetAnalyzer/src/compression/own/HuffmanDecoder.cpp:42-80 | decoding can stop between any two bits |
| BitStream.BitstreamOut.Append | NetAnalyzer/src/compression/own/BitstreamOut.h:77-124 | the words written and the low bits of the pending word always spell everything appended; stale high bits never show |
| BitStream.BitstreamOut.Close | NetAnalyzer/src/compression/own/BitstreamOut.h:126-147 | flushes the rest; with nothing pending the word is arbitrary |
| BitStream.BitstreamOut.Rewind | NetAnalyzer/src/compression/own/BitstreamOut.h:46-48 | the words written are forgotten, the pending bits are not |
| BitStream.BitstreamOut.Reset | NetAnalyzer/src/compression/own/BitstreamOut.h:54-58 | everything is forgotten |
| BitStream.BitstreamIn.GetWord | NetAnalyzer/src/compression/own/BitstreamIn.h:97-99 | the words in order |
| HttpExchange.Exchange | NetAnalyzer/src/http/HTTPDecoder.cpp:51-81 | any number of turns of requests and responses, each in any pieces, the last perhaps with bodies that go on until the close, then close: the listeners hear every header, every body byte, one end per message whose body has one, the close, and nothing else, also of answers to HEAD |
| HttpDecoder.HttpDecoder.OnPieces | NetAnalyzer/src/http/HTTPDecoder.cpp:68-81 | cutting one direction's bytes anywhere changes neither the calls (bytes counted one by one) nor the final state of both directions |
| HttpSemantics.RunResumes | NetAnalyzer/src/http/HTTPDecoder.cpp:68-403 | running on some bytes and then on more is running on all of them |
| HttpSemantics.StepMonotone | NetAnalyzer/src/http/HTTPDecoder.cpp:84-403 | a step that is possible stays the same step when more bytes arrive |
| HttpFraming.MessagesComeOut | NetAnalyzer/src/http/HTTPDecoder.cpp:203-393 | any list of messages with content-length, in chunks without trailers, or without body, the first perhaps the answer to HEAD and the last perhaps with a body without end, is reported exactly and completely |
| HttpFraming.EndlessComesOut | NetAnalyzer/src/http/HTTPDecoder.cpp:222-262 | behind a header that only says that the connection is closed every byte is reported as its body, its end never, and none is kept |
| HttpFraming.RefusedExactly | NetAnalyzer/src/http/HTTPDecoder.cpp:94-145 | a header ends the decoding of both directions if and only if its size is strange, it cannot be parsed, has gzip content, or answers no request; nothing more is reported then |
| HttpFraming.MessageLeads | NetAnalyzer/src/http/HTTPDecoder.cpp:93-393 | one message is consumed whole and the direction waits for the next header |
| HttpDecoder.HttpDecoder.Check | NetAnalyzer/src/http/HTTPDecoder.cpp:84-403 | each check is on the way of the run; it says to go on only after shrinking the buffer, and to stop only when nothing can be done |
| HttpDecoder.HttpDecoder.CheckAll | NetAnalyzer/src/http/HTTPDecoder.cpp:72-80 | the loop ends, with all calls made that the bytes allow |
| HttpDecoder.HttpDecoder.OnDataFromInitiator | NetAnalyzer/src/http/HTTPDecoder.cpp:68-73 | the calls and the state of both directions after the initiator's data |
| HttpDecoder.HttpDecoder.OnDataToInitiator | NetAnalyzer/src/http/HTTPDecoder.cpp:76-81 | the same for the other side |
| HttpDecoder.HttpDecoder.OnClose | NetAnalyzer/src/http/HTTPDecoder.cpp:40-66 | between calls neither direction has anything left to report, so the close is the only call |
| HttpDecoder.HttpDecoder.CheckHeader | NetAnalyzer/src/http/HTTPDecoder.cpp:94-145 | waits for the header's end; strange sizes and unparsable headers corrupt both directions |
| HttpDecoder.HttpDecoder.UseHeader | NetAnalyzer/src/http/HTTPDecoder.cpp:144-237 | gzip and responses without a request corrupt both directions; else the framing that follows and the HEAD flag of the other side |
| HttpDecoder.HttpDecoder.CheckContent | NetAnalyzer/src/http/HTTPDecoder.cpp:292-326 | body bytes up to the length, then the end of the message |
| HttpDecoder.HttpDecoder.CheckChunkSize | NetAnalyzer/src/http/HTTPDecoder.cpp:264-290 | a complete size line, or nothing |
| HttpDecoder.HttpDecoder.CheckChunkData | NetAnalyzer/src/http/HTTPDecoder.cpp:328-355 | chunk bytes up to the size |
| HttpDecoder.HttpDecoder.CheckChunkEnd | NetAnalyzer/src/http/HTTPDecoder.cpp:357-393 | the line break behind a chunk; an empty chunk ends the message |
| HttpDecoder.HttpDecoder.HandleData | NetAnalyzer/src/http/HTTPDecoder.cpp:405-442 | empty data is dropped, other data reported with the headers, which are never null |
| HttpDecoder.OtherStaysAtRest | NetAnalyzer/src/http/HTTPDecoder.cpp:84-403 | data of one direction never gives the other anything to do |
| Buffers.DataBuffer.Append | NetAnalyzer/src/buffer/DataBuffer.h:66-78 | bytes are added at the end, also when the buffer grows |
| Buffers.DataBuffer.EnsureSize | NetAnalyzer/src/buffer/DataBuffer.h:225-236 | there is room and the content stays |
| Buffers.DataBuffer.Resize | NetAnalyzer/src/buffer/DataBuffer.h:178-191 | growing keeps the content |
| Buffers.DataBuffer.IndexOf | NetAnalyzer/src/buffer/DataBuffer.h:95-126 | the first occurrence, or -1 if there is none |
| Buffers.DataBuffer.Get | NetAnalyzer/src/buffer/DataBuffer.h:142-145 | the first bytes, as many as there are |
| Buffers.DataBuffer.Remove | NetAnalyzer/src/buffer/DataBuffer.h:203-219 | the bytes got are taken from the front |
| Buffers.DataBuffer.AppendUnsafe | NetAnalyzer/src/buffer/DataBuffer.h:56-64 | the same as appending where the caller saw to the room |
| Buffers.FindExtends | NetAnalyzer/src/buffer/DataBuffer.h:95-126 | what was found stays found where it is when more bytes arrive |
| TcpRuns.CompleteDelivery | NetAnalyzer/src/network/processors/TCPReassembler.cpp:53-130 | with the advance: pieces with fixed boundaries, in any order and number, give the listener the whole stream unless the buffer overflows |
| TcpDirection.PrefixSafety | NetAnalyzer/src/network/processors/TCPReassembler.cpp:53-130 | with the advance: for any order, loss, duplication and overlap the bytes given are the prefix of the stream that ends at the expected number |
| TcpRuns.OrderedExactly | NetAnalyzer/src/network/processors/TCPReassembler.cpp:76-97 | as written: one call keeps that if and only if no buffered segment joins on to the one that arrived |
| TcpRuns.RunOrderedExactly | NetAnalyzer/src/network/processors/TCPReassembler.cpp:53-130 | as written, over a run: what was given is the stream up to the expected number if and only if no call joined a buffered segment on |
| TcpArrivals.HandedExactly | NetAnalyzer/src/network/processors/TCPReassembler.cpp:53-130 | as written, when all pieces arrive in however many copies: each is handed over once and in order if and only if the first arrivals of the pieces are in their order, or those of all but the last are and that one arrives once, before the last but one does |
| TcpArrivals.FirstsInOrderMeans | NetAnalyzer/src/network/processors/TCPReassembler.cpp:53-130 | that order says no more than that, at each arrival, every piece before it has come already |
| TcpHandover.HandedAsRun | NetAnalyzer/src/network/processors/TCPReassembler.cpp:53-130 | the same by what the calls do: the buffer never overflows and no call joins a buffered segment on, or only the one before the last piece does, when that is buffered once and does not come again |
| TcpArrivals.DeliveredExactly | NetAnalyzer/src/network/processors/TCPReassembler.cpp:53-130 | as written: the listener gets the whole stream if and only if the pieces arrive in that way, for pieces whose neighbours begin with different bytes |
| TcpArrivals.WholeStreamGiven | NetAnalyzer/src/network/processors/TCPReassembler.cpp:53-130 | as written: if they arrive in that way the listener gets the whole stream, whatever the pieces |
| TcpHandover.SameByChance | NetAnalyzer/src/network/processors/TCPReassembler.cpp:76-97 | equal pieces can stand for each other: three equal bytes of which the second is given twice and the last never |
| TcpHandover.SameAsIntended | NetAnalyzer/src/network/processors/TCPReassembler.cpp:53-130 | as long as no call joins a buffered segment on, the code does what it would with the advance |
| TcpRuns.SwappedSegments | NetAnalyzer/src/network/processors/TCPReassembler.cpp:76-97 | a run of three segments of "abc" where the code gives "abb", one where it stops at "ab", and what the advance gives |
| TcpRuns.BufferBounded | NetAnalyzer/src/network/processors/TCPSeqBuffer.cpp:31-36 | at most 64 segments wait in a direction; a run overflows only when 64 wait, and never with 64 segments or fewer |
| TcpDirection.TcpStreamDirection.ReAssemble | NetAnalyzer/src/network/processors/TCPReassembler.cpp:53-130 | what the listener is given, the new number, the buffer and the result of one call |
| TcpDirection.TcpStreamDirection.DrainBuffer | NetAnalyzer/src/network/processors/TCPReassembler.cpp:73-97 | buffered segments are handed over while one has the expected number |
| TcpDirection.TcpSeqBuffer.Get | NetAnalyzer/src/network/processors/TCPSeqBuffer.cpp:38-59 | takes out the oldest segment with that number, if any |
| TcpDirection.TcpSeqBuffer.Append | NetAnalyzer/src/network/processors/TCPSeqBuffer.cpp:61-69 | buffers a copy at the end |
| TcpReassembler.TcpReassembler.OnIPv4Packet | NetAnalyzer/src/network/processors/TCPReassembler.cpp:132-314 | all connections, counters and calls after one packet, and that the invariant is kept and no closed listener is called |
| TcpReassembler.TcpReassembler.CloseStream | NetAnalyzer/src/network/processors/TCPReassembler.cpp:339-352 | the listener hears the close, the stream is gone, the counter follows |
| TcpReassembler.TcpReassembler.PurgeOld | NetAnalyzer/src/network/processors/TCPReassembler.cpp:316-337 | every 64th call closes exactly the streams that were inactive for too long, in rising order of ids |
| TcpConnections.RunKeeps | NetAnalyzer/src/network/processors/TCPReassembler.cpp:132-352 | in every run each listener hears open, then data, then at most one close and nothing after it; open connections are the live streams, all connections the live and the closed; buffers stay small |
| TcpConnections.EveryRun | NetAnalyzer/src/network/processors/TCPReassembler.cpp:132-352 | and so it is in every run from the very start, with no connections |
| TcpConnections.PacketKeeps | NetAnalyzer/src/network/processors/TCPReassembler.cpp:132-314 | one packet keeps all of that |
| TcpConnections.PurgesExactly | NetAnalyzer/src/network/processors/TCPReassembler.cpp:316-337 | purging leaves exactly the streams that were active lately |
| TcpDelivery.RunDelivers | NetAnalyzer/src/network/processors/TCPReassembler.cpp:132-352 | over any run of packets of all connections a listener hears from either side a beginning of what that side sent, up to the expected number while it lives: with the advance, and as written while no packet joins a buffered segment on; a SYN-ACK of the connection leaves the number of the side as it is |
| TcpDelivery.PacketDelivers | NetAnalyzer/src/network/processors/TCPReassembler.cpp:132-314 | the same for one packet |
| TcpDelivery.InitiatorBegins | NetAnalyzer/src/network/processors/TCPReassembler.cpp:162-209 | a new connection delivers so from its first number behind the SYN, which may carry the first bytes |
| TcpDelivery.AnswerBegins | NetAnalyzer/src/network/processors/TCPReassembler.cpp:211-225 | and the other side from the number behind its SYN-ACK, which may carry the first bytes |
| TcpSessions.PacketEffect | NetAnalyzer/src/network/processors/TCPReassembler.cpp:132-314 | exactly what any packet makes the listener of a connection hear of either side, and how that side goes on |
| TcpSessions.NextIsHeard | NetAnalyzer/src/network/processors/TCPReassembler.cpp:263-281 | payload with the expected number is heard at once |
| TcpSessions.RunIsReassembly | NetAnalyzer/src/network/processors/TCPReassembler.cpp:132-314 | over any run, until a connection is closed, its listener hears of a side exactly what that side alone makes of its segments, whatever other packets come |
| TcpSessions.ClosesExactly | NetAnalyzer/src/network/processors/TCPReassembler.cpp:132-337 | a packet closes a connection, and its listener is told, if and only if it is a SYN for its id, a reset, the second FIN, payload out of order with 64 segments waiting, or the 64th packet and the connection was inactive for too long |
| TcpSessions.SynBegins | NetAnalyzer/src/network/processors/TCPReassembler.cpp:162-209 | behind a SYN for a free id the initiator's next number is expected and what came with the SYN was heard |
| TcpSessions.SynAckBegins | NetAnalyzer/src/network/processors/TCPReassembler.cpp:211-225 | and the same behind the SYN-ACK for the other side |
| TcpSessions.SessionComplete | NetAnalyzer/src/network/processors/TCPReassembler.cpp:132-314 | with the advance: when all pieces of a side arrive before its connection is closed, in any order among any packets, its listener hears the whole stream, unless the last packet overflows the buffer |
| TcpSessions.SessionExactly | NetAnalyzer/src/network/processors/TCPReassembler.cpp:132-314 | as written: it does if and only if the pieces arrive for the first time in order, or all but the last do and that comes once, too early; for pieces whose neighbours begin with different bytes |
| TcpSessions.SessionGiven | NetAnalyzer/src/network/processors/TCPReassembler.cpp:132-314 | as written: if they arrive so it does, whatever the pieces |
| TcpDelivery.SynAckExactly | NetAnalyzer/src/network/processors/TCPReassembler.cpp:211-225 | after a later SYN-ACK without payload the listener of a connection that goes on is still where it should be, for either side, if and only if the SYN-ACK leaves the number of that side as it is: for the answering side, if its own number plus one is the expected one |
| TcpDelivery.RepeatedSynAck | NetAnalyzer/src/network/processors/TCPReassembler.cpp:211-225 | an answering side that sends one byte, its SYN-ACK and that segment twice each: the listener hears the byte twice, with the advance and without |
| Ipv4Fragments.OrderDoesNotMatter | NetAnalyzer/src/network/processors/IPv4Reassembler.cpp:66-155 | fragments of a datagram in any order, once each, among any other packets and in time: exactly one packet is delivered for them, when the last arrives, with that fragment's headers, and its listeners read the original payload if and only if it fits the 16-bit length |
| Ipv4Fragments.DeliveredExactly | NetAnalyzer/src/network/processors/IPv4Reassembler.cpp:84-150 | the same with fragments repeated: when all pieces came the whole is delivered if and only if none came twice, and when an entry completes all pieces came if and only if none came twice |
| Ipv4Fragments.RepeatsExactly | NetAnalyzer/src/network/processors/IPv4Reassembler.cpp:101-117 | for an entry of up to 2^16 fragments: complete, all there, and nothing twice; each two say the third |
| Ipv4Fragments.PayloadExactly | NetAnalyzer/src/network/processors/IPv4Reassembler.cpp:101-135 | the buffer holds the payload, whatever memory held before, if and only if all pieces came |
| Ipv4Fragments.StoreNext | NetAnalyzer/src/network/processors/IPv4Reassembler.cpp:101-114 | buffer, length received and total length after one more fragment, repeated or not |
| Ipv4Fragments.RunOfEntry | NetAnalyzer/src/network/processors/IPv4Reassembler.cpp:66-155 | what comes out of one entry over any run, and when |
| Ipv4Fragments.CompleteExactly | NetAnalyzer/src/network/processors/IPv4Reassembler.cpp:116-117 | an entry is taken for complete when its last piece came and the lengths received add up, modulo 2^32 |
| Ipv4Fragments.ReadExactly | NetAnalyzer/src/network/Packet.h:240-247 | a listener reads the payload if and only if headers and payload fit 16 bits, else beyond the packet |
| Ipv4Fragments.LengthWraps | NetAnalyzer/src/network/Packet.h:240-247 | an input for which the length becomes zero and the payload length some four gigabytes |
| Ipv4Fragments.LastFragmentTwice | NetAnalyzer/src/network/processors/IPv4Reassembler.cpp:108-117 | a last fragment sent twice can complete an entry whose first half was never written |
| Ipv4Fragments.UnfragmentedPass | NetAnalyzer/src/network/processors/IPv4Reassembler.cpp:66-82 | over any run packets that are no fragments are delivered as they are and in their order, what is not IPv4 never; each fragment makes one packet at most, and nothing else is delivered |
| Ipv4Reassembler.Ipv4Reassembler.OnPacket | NetAnalyzer/src/network/processors/IPv4Reassembler.cpp:66-155 | storage and deliveries after one packet, whatever memory held before |
| Ipv4Reassembler.Ipv4Reassembler.PurgeOld | NetAnalyzer/src/network/processors/IPv4Reassembler.cpp:46-64 | exactly the entries older than five seconds go |
| Ipv4Reassembler.Ipv4Assembled.Store | NetAnalyzer/src/network/processors/IPv4Reassembler.cpp:101-114 | the payload at its offset, the length received and the total length |
| LzwPipeline.Transmit | NetAnalyzer/src/compression/lzwDict/LZWDictEncoder.cpp:29-114 | a dictionary learned from anything, data in any chunks, closed and decoded: the data comes back |
| LzwWords.RoundTrip | NetAnalyzer/src/compression/lzwDict/LZWDictEncoder.cpp:29-114 | the same on numbers and words |
| LzwWords.LearnAllKeepsTrie | NetAnalyzer/src/compression/lzwDict/LZWDict.h:81-174 | every dictionary is a prefix-closed set of words of at most 16 bytes, numbered differently below 65536 and never 256, with the list that turns numbers back |
| LzwWords.InitialTrie | NetAnalyzer/src/compression/lzwDict/LZWDict.h:202-219 | the dictionary of single bytes is one |
| LzwWords.RoomExactly | NetAnalyzer/src/compression/lzwDict/LZWDictStream.h:20-23 | for any dictionary, the numbers of data of which no two neighbours are a word fit a stream if and only if it was asked for four bytes per byte |
| LzwWords.EveryByteIsACode | NetAnalyzer/src/compression/lzwDict/LZWDictEncoder.cpp:29-51 | data puts out a number for every byte if and only if no two neighbours are a word, and fewer otherwise |
| LzwWords.NumbersNeeded | NetAnalyzer/src/compression/lzwDict/LZWDictEncoder.cpp:29-51 | for any dictionary, at most a number for every byte and at least one for every 16 |
| LzwWords.EveryDictionary | NetAnalyzer/src/compression/lzwDict/LZWDict.h:81-174 | of all that can be learned: no two words have the same number, each number turns back into its word, every beginning of a word is a word |
| LzwWords.PrefixClosed | NetAnalyzer/src/compression/lzwDict/LZWDict.h:108-134 | every beginning of a word is a word |
| LzwLearned.WordsLearned | NetAnalyzer/src/compression/lzwDict/LZWDict.h:81-134 | told from the data: up to where the dictionary is full it is cut into phrases, each beginning at the last byte of the word before; a phrase is added as soon as it is no word yet, given up when it is one of 16 bytes; the words are these and the single bytes, numbered in order, and the rest is pending |
| LzwLearned.OneCut | NetAnalyzer/src/compression/lzwDict/LZWDict.h:81-134 | the data can be cut so in one way only |
| LzwDict.LzwDict.Append | NetAnalyzer/src/compression/lzwDict/LZWDict.h:81-174 | tree and list after learning from data; nothing changes once it is full |
| LzwDict.LzwDict.AppendByte | NetAnalyzer/src/compression/lzwDict/LZWDict.h:97-134 | one byte grows the pending word or adds it and starts over with that byte |
| LzwDict.LzwDict.constructor | NetAnalyzer/src/compression/lzwDict/LZWDict.h:45-47 | tree and list of the 256 single bytes |
| LzwDict.LzwDict.AddNode | NetAnalyzer/src/compression/lzwDict/LZWDict.h:108-121 | the tree stays linked and the new node is the new word's |
| LzwCodec.LzwDictEncoder.Append | NetAnalyzer/src/compression/lzwDict/LZWDictEncoder.cpp:29-51 | the numbers put out and the word still pending after any data |
| LzwCodec.LzwDictEncoder.Close | NetAnalyzer/src/compression/lzwDict/LZWDictEncoder.cpp:96-102 | the pending word is put out, if there is one |
| LzwCodec.LzwDictDecoder.Append | NetAnalyzer/src/compression/lzwDict/LZWDictDecoder.cpp:30-60 | every two bytes are the number of a word, which is appended; 16 bytes of room per number suffice |
| LzwCodec.LzwDictStream.Append | NetAnalyzer/src/compression/lzwDict/LZWDictStream.h:30-43 | one more 16-bit number |
| LzwCodec.LzwDictStream.constructor | NetAnalyzer/src/compression/lzwDict/LZWDictStream.h:20-23 | room for a quarter as many numbers as bytes are asked for |
| LzwCodec.LzwDictStream.GetData | NetAnalyzer/src/compression/lzwDict/LZWDictStream.h:50-53 | the numbers as bytes, low byte first |
| LzwCodec.BytesHoldCodes | NetAnalyzer/src/compression/lzwDict/LZWDictDecoder.cpp:42-48 | each pair of bytes gives its number back |
| XmlRoundTrip.RoundTrip | NetAnalyzer/src/lib/tinyxml2/tinyxml2.cpp:1663-1687 | printing a document and parsing the result gives the same document, compact or indented: valid names, different attributes, text that is not blank, not adjacent to text, without zero bytes and carriage returns, and at the top none at the end nor, when indented, behind an element |
| XmlRoundTrip.DocumentRead | NetAnalyzer/src/lib/tinyxml2/tinyxml2.cpp:772-848 | what becomes of any document of such nodes: nothing if it ends with text, else the same with the line breaks around text at the top in that text |
| XmlExact.RoundTripExactly | NetAnalyzer/src/lib/tinyxml2/tinyxml2.cpp:1663-1687 | any document comes back if and only if it is one of those: every condition is needed |
| XmlExact.NodesAreFound | NetAnalyzer/src/lib/tinyxml2/tinyxml2.cpp:772-848 | whatever the text, elements and attributes read from it have valid names, different ones within an element; and if every ampersand in it begins a known entity, no text read is blank or next to another and none has a carriage return |
| XmlExact.DocumentIsClean | NetAnalyzer/src/lib/tinyxml2/tinyxml2.cpp:178-260 | in what is printed of a document with valid names every ampersand begins an entity that the reader knows |
| XmlReader.PrintAndParse | NetAnalyzer/src/lib/tinyxml2/tinyxml2.cpp:1690-1697 | the same for the printer and parser as they run: the document comes back exactly then |
| XmlReader.ReadDocument | NetAnalyzer/src/lib/tinyxml2/tinyxml2.cpp:1663-1687 | the whole parser, from white space and byte order mark to nodes or error |
| XmlText.DecodeEscaped | NetAnalyzer/src/lib/tinyxml2/tinyxml2.cpp:178-260 | reading undoes writing of text and of attribute values |
| XmlText.GetStr | NetAnalyzer/src/lib/tinyxml2/tinyxml2.cpp:178-260 | the rewriting in place, with read and write pointer: entities, line ends, and what an unknown entity leaves behind |
| XmlText.Unescape | NetAnalyzer/src/lib/tinyxml2/tinyxml2.cpp:178-260 | the same for each text and attribute value as it is read |
| XmlText.CleanValue | NetAnalyzer/src/lib/tinyxml2/tinyxml2.cpp:178-260 | without unknown entities that is decoding character by character |
| XmlText.UnknownStays | NetAnalyzer/src/lib/tinyxml2/tinyxml2.cpp:178-260 | text without known entities, numeric references and carriage returns stays as it is |
| XmlText.UnknownBehindKnown | NetAnalyzer/src/lib/tinyxml2/tinyxml2.cpp:236-241 | behind a known entity an unknown one leaves a byte of the first: an input |
| XmlLines.LineEnds | NetAnalyzer/src/lib/tinyxml2/tinyxml2.cpp:189-216 | line feed, carriage return, and either behind the other, once each, all become one line feed |
| XmlLines.DecodeNormalized | NetAnalyzer/src/lib/tinyxml2/tinyxml2.cpp:189-216 | a value is the same with every line end, however written, made a line feed first |
| XmlLines.ParseNormalized | NetAnalyzer/src/lib/tinyxml2/tinyxml2.cpp:1663-1687 | and so is a whole document whose entities are known, as section 2.11 of XML 1.0 asks: nodes or error |
| XmlLines.LineEndsDoNotMatter | NetAnalyzer/src/lib/tinyxml2/tinyxml2.cpp:1663-1687 | a printed document comes back also if its line ends are written in other ways, here and there |
| XmlLines.WithAnyEnds | NetAnalyzer/src/lib/tinyxml2/tinyxml2.cpp:1663-1687 | as with all of them carriage returns, or carriage return and line feed |
| XmlText.EscapedIsPlain | NetAnalyzer/src/lib/tinyxml2/tinyxml2.cpp:1798-1833 | no tag and, in attribute values, no quote is left in what is written |
| XmlPrinter.XmlPrinter.PrintString | NetAnalyzer/src/lib/tinyxml2/tinyxml2.cpp:1798-1833 | runs and entities together are the escaped string |
| XmlPrinter.XmlPrinter.OpenElement | NetAnalyzer/src/lib/tinyxml2/tinyxml2.cpp:1848-1864 | seals the tag before, indents unless text forbids it, writes the name |
| XmlPrinter.XmlPrinter.PushAttribute | NetAnalyzer/src/lib/tinyxml2/tinyxml2.cpp:1867-1873 | name and escaped value |
| XmlPrinter.XmlPrinter.CloseElement | NetAnalyzer/src/lib/tinyxml2/tinyxml2.cpp:1908-1931 | the short or long end tag, indentation, and which element's text is remembered |
| XmlPrinter.XmlPrinter.PushText | NetAnalyzer/src/lib/tinyxml2/tinyxml2.cpp:1941-1956 | escaped text, and no more line breaks in its element |
| XmlPrinter.XmlPrinter.Accept | NetAnalyzer/src/lib/tinyxml2/tinyxml2.cpp:2050-2072 | a whole node is printed as the structural definition says, from any state of the printer |
| XmlPrinter.PrintAll | NetAnalyzer/src/lib/tinyxml2/tinyxml2.cpp:565-575 | a whole document |
| XmlPrinter.ClosedDepth | NetAnalyzer/src/lib/tinyxml2/tinyxml2.cpp:1924-1926 | when an element ends, its own text and that of elements within are forgotten, that of elements around is kept unless text came between |
| XmlReader.ReadNodes | NetAnalyzer/src/lib/tinyxml2/tinyxml2.cpp:772-848 | the loop over nodes reads what the grammar reads, with each error |
| XmlReader.ReadNode | NetAnalyzer/src/lib/tinyxml2/tinyxml2.cpp:794-846 | one node, an end tag, the end of the text, or an error: mismatched tags among them |
| XmlReader.ReadElement | NetAnalyzer/src/lib/tinyxml2/tinyxml2.cpp:1402-1430 | name, attributes, and children up to an end tag |
| XmlReader.ReadAttributes | NetAnalyzer/src/lib/tinyxml2/tinyxml2.cpp:1341-1395 | attributes up to the end of the tag; repeated names are errors |
| XmlReader.ReadAttribute | NetAnalyzer/src/lib/tinyxml2/tinyxml2.cpp:1042-1067 | name, equals sign and quoted value, with white space between |
| XmlReader.ReadName | NetAnalyzer/src/lib/tinyxml2/tinyxml2.cpp:131-148 | the longest name |
| XmlReader.ReadText | NetAnalyzer/src/lib/tinyxml2/tinyxml2.cpp:111-128 | everything up to the end tag |
| XmlRoundTrip.NodesRoundTrip | NetAnalyzer/src/lib/tinyxml2/tinyxml2.cpp:772-848 | the children of an element, printed in any context, are read back up to its end tag |
| XmlRoundTrip.ElementRoundTrip | NetAnalyzer/src/lib/tinyxml2/tinyxml2.cpp:1402-1430 | an element is read back with its children |
| XmlRoundTrip.ParsesAttributes | NetAnalyzer/src/lib/tinyxml2/tinyxml2.cpp:1341-1395 | printed attributes are read back |
| XmlRoundTrip.WrongEndTag | NetAnalyzer/src/lib/tinyxml2/tinyxml2.cpp:810-838 | an element whose end tag has another name is an error |

## Left out

The rest of the program:

- The graphical and ncurses displays, exporters, configuration, command line, files, sniffer, sockets, threads and scheduling: input and output only.
- Wrappers of GZip, LZMA and LZO: the libraries are not part of this model. HTTP is modelled as built without ZLIB, where gzip content marks a connection as corrupted.
- `DictFlex` and `DictEncoder`: no decoder exists. `LZWHashSet`, `Dict`, `Bitstream.h` and `HuffmanDecodeLUT.h` are not used by the code modelled here.
- Statistics, averages, latencies, entropy and speeds: counters and floating point that nothing else depends on. The connection counters of TCP are modelled.

LZ4:

- The heap, limited-output, 64K-prefix and partial-decoding variants.
- Lz4Encoder.CommonBytes: has the meaning of the word trick (number of equal low bytes of the first eight), not its de Bruijn multiplication or bit-scan instruction.
- Lz4Decoder.DecompressSafe: positions do not wrap around as pointers could at the end of the address space; a zero offset, which makes the program read bytes it has not written, leaves the bytes of the output unspecified.
- Lz4Encoder.Compress: inputs are smaller than 2^31 bytes, as the `int` size demands, and the output buffer holds the bound, as the header asks for.

QuickLZ:

- Levels 2 and 3, `QLZ_MEMORY_SAFE`, and other values of `QLZ_STREAMING_BUFFER` than 100000. Word reads of x86 are modelled by the bytes they use; bytes read beyond the ones used are not.
- QuickLzDecompress.DecompressCore: describes packets that come from the encoder of the same stream; what damaged packets do is not modelled, because the level without memory safety does not promise anything.
- QuickLzStream.CompressState.Compress: the hash of three bytes is the 12-bit combination that `hash_func` computes for x86; the caller's output buffer has the 400 spare bytes that the header asks for.

Huffman:

- `getEntropy` is floating point; `loadFromString` and the debug output are not modelled. `BitstreamIn.getBit` is modelled through the words it reads.
- HuffmanBuilder.Builder.GetTree: new entries go behind their equals, as C++11 has it; what is proved of the tree uses only that the order is kept.
- HuffmanBuilder.Builder.SetCounterValues: its size assertion is a precondition.
- HuffmanPipeline.GetCompressedSize: the division by eight and `ceil` on a `double` are done on integers, which is the same, as the sum stays below 2^40.
- HuffmanPipeline.TrainedRoundTrip: the sample is short enough for codes of at most 32 bits; `HuffmanCoder.RoundTrip` asks for such codes instead.
- BitStream.BitstreamOut.Close: shifting a word by 64 with nothing pending gives an arbitrary word, as the language leaves it undefined; the round trip holds for each.

HTTP:

- HttpDecoder.HttpDecoder.CheckHeader: the text of a header is turned into its fields by a parser that is a parameter, of which nothing is assumed; only the fields that framing looks at are there. The conversions of decimal and hexadecimal lengths are part of it.
- HttpFraming.MessagesComeOut: messages with trailers and gzip content are outside of this theorem; the step semantics and segmentation independence cover them, except trailers, which the code takes for the next header.
- HttpExchange.Exchange: the requests of a turn have all come when its first response begins. The code remembers only whether the last of them was HEAD, and takes only the first response for its answer.
- Buffers.DataBuffer.Append: contents stay below 2^31 bytes, since doubling the 32-bit size would wrap; a failing `realloc` is not modelled.

TCP:

- TcpDirection.PrefixSafety: sequence numbers do not wrap; the source compares them with a plain `>`.
- TcpRuns.CompleteDelivery: speaks of runs in which the buffer of 64 segments never overflows, since the stream is closed when it does; runs of at most 64 segments never do.
- TcpArrivals.DeliveredExactly: neighbouring pieces begin with different bytes; otherwise pieces can stand for each other, as in `TcpHandover.SameByChance`. `HandedExactly` speaks of the segments and needs no such condition.
- TcpDelivery.RunDelivers: every SYN-ACK of the connection leaves the number of the side as it is, without which the property fails (`RepeatedSynAck`, `SynAckExactly`), and only the first SYN-ACK of the answering side (`AnswerBegins`) may carry its bytes.
- TcpSessions.RunIsReassembly: SYN-ACKs that come behind the first leave the side as it is, as in `RunDelivers`.
- TcpReassembler.TcpReassembler.OnIPv4Packet: the connection listener gives every new connection a listener of its own, chosen by means that are not part of this model; the counter of `purgeOld` is a static local in the source and a field here.
- Different connections can have the same id in the source, exactly when the sums of their addresses and of their ports agree, as `TcpConnections.SameIdExactly` says, so the theorems speak of ids, not of connections.
- Destructors that close what is still open, and per-direction statistics.

IPv4:

- Ipv4Reassembler.Ipv4Reassembler.OnPacket: fragments that reach beyond the 64K buffer, which the source copies unchecked, are excluded by a precondition; headers are opaque bytes except for the fields that are changed.
- Ipv4Fragments.DeliveredExactly: follows one entry from its first fragment to its completion; fragments that come later begin a new one. Where it speaks of repeated fragments there are at most 2^16 of them, so that the 32-bit sum of lengths does not come round.
- Ipv4Fragments.OrderDoesNotMatter: header lengths are at most 60, as their four bits have it.
- The 64K buffer of an entry is a value of the entry object, so aliasing between buffers of different entries is not modelled (there is none). The same holds for the two directions embedded in a TCP stream.

LZW:

- `curNode` and `pending` of `LZWDict::append` are static locals shared by all dictionaries; here they are fields of the one dictionary there is. The decoder's slow mode and `loadFile` are not modelled.
- LzwPipeline.Transmit: the stream is asked for four bytes for every byte of a chunk, because the constructor allocates only half as many bytes as it is asked for.
- LzwCodec.LzwDictDecoder.Append: an odd length is excluded by a precondition; the assertion that the word of a number is not empty is taken as compiled out (NetAnalyzer/src/Debug.h:106), so that such a number adds nothing.

tinyxml2:

- Comments, declarations, CDATA, unknown nodes, numeric character references, collapsing of white space, writing a byte order mark, files, and `processEntities` switched off.
- XmlReader.ReadNodes: answers `Unmodelled` where the text starts a node of a kind left out or uses a numeric reference; nodes read before an error are not kept, while the source keeps them in the document.
- XmlText.GetStr: gives up at a numeric reference. `Unescape` rewrites a copy of each piece of text when it is read, while the source rewrites the text itself when it is first asked for; linked lists of nodes and attributes are sequences.
- XmlPrinter.XmlPrinter.Accept: covers elements, attributes and text, into the memory buffer.
- XmlLines.ParseNormalized: the entities of the text are known; an unknown one leaves a byte that depends on how lines are ended before it.
- XmlExact.RoundTripExactly: strings have no zero bytes inside, as they end with the first one in the source.
