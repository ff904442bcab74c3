# Proofs about the yrmcds client and its LZ4

This project models the compression codec, the frame layer, the hash, the wire client and the
persistent connections of the PHP extension for yrmcds, and proves what they are for: data comes
back, reads and writes stay in bounds, packets arrive in order, connections are closed when and only
when nobody can reach them. The machine is a 64-bit little-endian one; pointers are offsets into arrays.

`dafny verify dfyconfig.toml` checks everything.

The files, from the bottom up:

- `Bytes`, `BlockFormat`, `BlockParser`: the block format. `Decode` is the byte-at-a-time LZ77 decoder
  that gives a block its meaning; `Parse` is the control flow of the decoder, which never looks at decoded data.
- `WildCopy`, `BlockDecoder`: `LZ4_decompress_generic` with its 8-byte over-copies, on one array that
  holds prefix and output, with prefix, external dictionary and partial decoding.
- `MatchCount`, `FastParse`, `FastSound`, `Emit`, `FastCompress`, `FastCodec`: `LZ4_compress_generic`
  over the two kinds of hash table. `ParseBlock` says as a function which sequences the greedy search finds;
  the method is proved to write exactly their bytes. `FastFirst`: which match that is.
- `FastLimit`, `LimitExact`: what the compressor writes beyond its output limit. `SpillBlock` names the byte,
  if there is one, by following the search.
- `BlockRules`: what any encoder must deliver, and that the decoder then gives the data back.
- `HcFinder`, `HcParse`, `HcCompress`: `lz4hc.c`. `Chains` are the hash heads and chain links as a value, `Best` and
  `Wider` what a search finds in them, and `HcBlock` what the three-match parser makes of that, as a machine
  with two invariants, `InSearch2` and `InSearch3`, at its labels; the methods are proved to do exactly that.
  `HcChain`: what the chains hold, and that the searches find the longest matches. `Zeros`: what both
  compressors make of a run of zeros.
- `HcLimit`, `HcExact`: what the HC compressor writes beyond its output limit, and from which length on.
- `BlockStream`: chained blocks, `LZ4_compress_continue` and `LZ4_decompress_safe_continue`. `BlockRing`: blocks
  decoded into a buffer that is used again and again.
- `XxStripes`, `XxHash32`, `XxHash64`: the one-shot hashes and their streaming states. `XxTells32`, `XxTells64`:
  which inputs they tell apart, and a published value of each.
- `FrameFormat`: a reader of frames that takes one byte at a time (`Absorb`) and has unlimited room.
  `FrameWindow`, `FrameDecoder`: `LZ4F_decompress`, which is proved to refine it however input and
  output are cut, with its sliding dictionary. `FrameBlocks`, `FrameEncoder`: the encoder, with the compressor
  that goes with each level. `FrameLimit`: when its bounds hold. `FrameCodec`: whole runs of both, with one
  output buffer that is overwritten between calls, on good and on broken input. `FrameKnown`: some frames, written
  out.
- `Wire`, `Socket`, `Client`, `Sessions`: the memcached binary protocol, a socket whose every call does
  what an arbitrary script says, the connection object, and what a program sees of it.
- `Persistent`: constructors and destructors of client objects over the persistent list. What each does is a
  function on the books (`World`): the list, the count of every connection, and who holds it.
- `Runs`: a transition system over these functions and over what arrives and is sent on each connection
  (`Line`), what holds of all its runs, and that the extension follows it against servers that do anything.

Properties that turned out false of the code are stated with an input that shows it and with their exact
condition:

- The decoder reads past its input: `OverreadExactly`. It accepts blocks that mean nothing: `AcceptedMeaning`,
  `ZeroOffsetAccepted`.
- `LZ4_compress_limitedOutput` writes beyond its limit: from 134674 bytes of input on, and only then, some input
  makes it (`LimitExactly`); `EchoSpills` has such inputs, and `SpillOf` says for each input and limit whether.
- `LZ4_compressHC_limitedOutput` does from 5638 bytes of input on, and only then, at every level
  (`LimitExactlyHc`); `TuneLong` has the inputs, with a limit of 5655, and `SpillOfHc` says for each input, level
  and limit whether and where.
- `LZ4F_compressUpdate` writes beyond what `LZ4F_compressBound` asks for, and `LZ4F_flush` beyond its sixteen bytes,
  for some input if and only if the level is at least 3 and blocks have 1 MiB or 4 MiB (`BoundExactly`,
  `FlushExactly`); `FlushedOverruns` and `BufferedOverruns` have the inputs. It is never more than 65 bytes.
- The content checksum misses bytes of pieces of 2^32 bytes or more: the frame is good if and only if the hash
  taken fits (`ChecksumFits`, `EncodeFrame`); `LongPieceRejected` has the input.
- `LZ4F_compressEnd` writes beyond its buffer: exactly when nothing is buffered and there is no room (`End`), as
  when a frame is begun and ended at once (`EndOverruns`).
- Values of 2^32 bytes or more do not come back: `StoredComesBack`, `LongValueLost`.
- Reference counts are exact if and only if no object that holds a connection is constructed again
  (`CountsExact`); `ConstructTwice` is a run that leaks.
- The wide search of the HC compressor does not extend a match backwards as far as its bytes agree, because it
  compares what the match refers to, too, with the place where the match may start: `WiderLongest`,
  `WiderMaximal` say how far it does.
- Something may be left unread after a goodbye: `NothingUnread`, `Settle`; `SecondReplyUnread` has the stream.

## Model

| member | source | states |
|---|---|---|
| BlockFormat.CopyMatchPeriodic | libyrmcds/lz4/lib/lz4.c:1079-1107 | copying a match one byte at a time, overlap included, is the one continuation in which every byte equals the byte `offset` before it |
| BlockFormat.BlockSize | libyrmcds/lz4/lib/lz4.h:101 | a block for n bytes is at most n + n/255 + 16 bytes long, whatever its sequences |
| Zeros.LengthsKnown | libyrmcds/lz4/lz4_block_format.txt:46-57 | the lengths 48, 280 and 15 are 15 and the bytes 33; 255 10; 0 |
| Zeros.SequenceKnown | libyrmcds/lz4/lz4_block_format.txt:30-85 | five literals and a match of 300 bytes at distance 258 are the ten bytes 5F, the literals, 02 01 FF 1A |
| BlockParser.OverreadExactly | libyrmcds/lz4/lib/lz4.c:988-998 | the unguarded token and length reads leave the input exactly when it is empty or a lone token that announces more length bytes, and there is output room |
| BlockParser.ParseBytes | libyrmcds/lz4/lib/lz4.c:981-1107 | a block that keeps the parsing restrictions, written out, is parsed back as itself, or in partial mode as its part up to the first literals past the target |
| BlockParser.AcceptsExactly | libyrmcds/lz4/lib/lz4.c:988-1043 | the decoder, whole or partial, accepts an input if and only if it begins with a written-out block that keeps the restrictions on where matches and literals end and how far back they reach, and decoding stops at its end; then it sees that block |
| BlockParser.AcceptsWhole | libyrmcds/lz4/lib/lz4.c:1003-1019 | without partial decoding that is the whole input, and the restrictions are those of Fits |
| BlockRules.LegalParses | libyrmcds/lz4/lib/lz4.c:520-521 | a block whose matches start MFLIMIT and end LASTLITERALS bytes before the end and reach into known history is accepted with any capacity that holds it |
| BlockRules.CutDecodes | libyrmcds/lz4/lib/lz4.c:1003-1022 | the part of a block that partial decoding keeps stands for a prefix of what the block stands for |
| BlockRules.DecodeMoreHistory | libyrmcds/lz4/lib/lz4.c:942-955 | a block means the same after a longer history |
| BlockRules.AcceptedMeaning | libyrmcds/lz4/lib/lz4.c:1026-1028 | what whole or partial decoding accepts stands for bytes if and only if none of its offsets is 0, which the decoder does not reject |
| BlockRules.ZeroOffsetAccepted | libyrmcds/lz4/lib/lz4.c:1026-1028 | a concrete block with offset 0 that the decoder accepts and that has no meaning |
| WildCopy.WildCopyFrom | libyrmcds/lz4/lib/lz4.c:285-292 | the copy from another buffer gives the right bytes and touches whole chunks of eight, at least one, exactly |
| WildCopy.WildCopyWithin | libyrmcds/lz4/lib/lz4.c:285-292 | the 8-byte copy within a buffer, from at least 8 bytes back, continues the period of the source |
| WildCopy.CopyFirstEight | libyrmcds/lz4/lib/lz4.c:1081-1091 | the first eight bytes of a match are periodic for every offset, and the tables dec32 and dec64 leave the source a multiple of the offset, at least 8, behind the target |
| WildCopy.CopyMatchFast | libyrmcds/lz4/lib/lz4.c:1079-1106 | the table-driven copy of a match makes every byte equal the byte `offset` before it, stays below the end of the output, and fails exactly when the match ends in the last five bytes |
| BlockDecoder.CopyFromDict | libyrmcds/lz4/lib/lz4.c:1046-1077 | a match that starts in the external dictionary takes its bytes from there and then from the start of the current segment |
| BlockDecoder.CopyAnyMatch | libyrmcds/lz4/lib/lz4.c:1045-1107 | prefix and external dictionary alike: the output afterwards is CopyMatch of dictionary, prefix and output before |
| BlockDecoder.DecodeTurn | libyrmcds/lz4/lib/lz4.c:982-1107 | one turn of the main loop takes, ends or fails as ReadStep says, adds what the sequence stands for, and writes only into the output buffer |
| BlockDecoder.DecompressGeneric | libyrmcds/lz4/lib/lz4.c:942-1118 | the result code is that of Parse, never above the capacity; the output is the byte-at-a-time decoding after dictionary and prefix; nothing outside the output buffer changes; every read is in bounds; it terminates |
| MatchCount.XorIsZero | libyrmcds/lz4/lib/lz4.c:398-402 | eight bytes agree if and only if the two words xor to 0 |
| MatchCount.WordTells | libyrmcds/lz4/lib/lz4.c:327-391 | the trailing zero bits of the xor of two words, divided by 8, are the number of leading bytes that agree |
| MatchCount.Count | libyrmcds/lz4/lib/lz4.c:394-410 | LZ4_count is the length of the longest common prefix below the limit, for all positions and overlaps |
| FastParse.InReach | libyrmcds/lz4/lib/lz4.c:421 | a candidate in a 16-bit table is never more than 65535 bytes back, though it is not tested: below LZ4_64Klimit there is no position that far |
| FastParse.PutKeeps | libyrmcds/lz4/lib/lz4.c:469-483 | positions put in either table are stored without truncation, and every entry stays a position already passed |
| FastSound.CodesMore | libyrmcds/lz4/lib/lz4.c:595-645 | a true match, extended backwards over equal bytes and forwards by its count, carries the encoded part of the input up to its end |
| FastFirst.ProbeStep | libyrmcds/lz4/lib/lz4.c:559-566 | the k-th position that the search probes has a closed form: steps of 1, from the 65th on of 2, from the 129th on of 3, and so on |
| FastFirst.SearchFirst | libyrmcds/lz4/lib/lz4.c:559-593 | the search takes the first usable candidate among the positions it probes, with the table that the puts before it have left, or none if the next position comes too late |
| FastFirst.CatchUpStops | libyrmcds/lz4/lib/lz4.c:595-596 | a match is extended backwards until the bytes differ, or it is at the anchor, or what it refers to is at the start of the dictionary |
| FastFirst.CatchUpFar | libyrmcds/lz4/lib/lz4.c:595-596 | over every stretch that repeats and keeps these limits |
| FastFirst.Remembers | libyrmcds/lz4/lib/lz4.c:665-680 | behind a match the positions two before its end and at its end are in the table, and nothing else has changed |
| FastFirst.RightAfter | libyrmcds/lz4/lib/lz4.c:668-687 | if the candidate at the end of a match is usable, the next sequence has no literals and is that match |
| FastSound.FastBlockSound | libyrmcds/lz4/lib/lz4.c:555-693 | for every input, table kind, history and table contents, the greedy search yields a legal block that decodes to the input |
| FastCompress.SearchLoop | libyrmcds/lz4/lib/lz4.c:559-593 | the search loop with its growing step stops where Search says, with the same table, and it stops |
| FastLimit.LimitHolds | libyrmcds/lz4/lib/lz4.c:647-648 | for inputs below 134671 bytes, and where the limit leaves the room of the frame layer, no byte is written at the limit or behind it |
| LimitExact.EchoSpills | libyrmcds/lz4/lib/lz4.c:621-648 | for inputs that begin with "abcabc..." of 134662 bytes and then "caca", and a limit of 537, the byte of index 537 is written |
| LimitExact.LimitExactly | libyrmcds/lz4/lib/lz4.c:730-748 | the limit bounds the writes for all inputs of a length and all limits if and only if the length is below 134674 |
| FastCompress.EncodeMatches | libyrmcds/lz4/lib/lz4.c:618-687 | a run of matches without literals between them is written as its sequences; with a limit it gives up only if the whole block is too long; the byte that SpillTake names is written, and no other behind the limit is if it names none |
| FastCompress.CompressGeneric | libyrmcds/lz4/lib/lz4.c:498-707 | the bytes written and the final table are those of the specified search; with a limit the result is 0 exactly when the block is longer; nothing is written beyond the limit if SpillBlock names no byte, and otherwise that byte is |
| FastCodec.CompressThenParse | libyrmcds/lz4/lib/lz4.c:710-728 | for every input up to LZ4_MAX_INPUT_SIZE and every capacity that holds it, the compressed bytes parse back to a block that decodes to the input |
| FastCodec.CompressThenParsePartly | libyrmcds/lz4/lib/lz4.c:1126-1129 | partial decoding of them gives a prefix of the input, all of it or at least the target |
| FastCodec.Compress | libyrmcds/lz4/lib/lz4.c:710-728 | LZ4_compress writes Compressed(input) into its worst-case bound and nothing beyond; 0 for inputs that are too large |
| Zeros.ZerosFast | libyrmcds/lz4/lib/lz4.c:555-693 | n zeros, from 14 on, are one literal, one match of n - 6 bytes at distance 1, and five literals |
| FastCodec.CompressLimitedOutput | libyrmcds/lz4/lib/lz4.c:730-748 | the very bytes of LZ4_compress when they fit, 0 otherwise; beyond the limit nothing is written, unless SpillOf names a byte, and then that byte is |
| FastCodec.DecompressSafe | libyrmcds/lz4/lib/lz4.c:1121-1124 | the safe decoder against Parse and Decode, writing only into its buffer |
| FastCodec.DecompressSafePartial | libyrmcds/lz4/lib/lz4.c:1126-1129 | the same for the partial decoder |
| FastCodec.RoundTrip | libyrmcds/lz4/lib/lz4.c:710-728 | compress then decompress returns the length and the bytes of the input |
| FastCodec.PartialRoundTrip | libyrmcds/lz4/lib/lz4.c:1126-1129 | partial decompression returns r with min(target, n) <= r <= n and the first r bytes |
| FastCodec.DictionaryAnywhere | libyrmcds/lz4/lib/lz4.c:1254-1265 | decoding with an external dictionary and with the same bytes right before the output give equal results and equal bytes |
| HcFinder.Finder.Insert | libyrmcds/lz4/lib/lz4hc.c:130-150 | the tables afterwards are those of inserting every position up to the given one, one after the other: its head goes into the chain and it becomes the head |
| HcFinder.LastIsHead | libyrmcds/lz4/lib/lz4hc.c:140-147 | after inserting up to a position, the head of the hash of the position before is that position |
| HcChain.InsertToLinked | libyrmcds/lz4/lib/lz4hc.c:130-150 | inserting keeps every head the last position with its hash and every link of the last 64 KiB the step to the one before it, if that is at most 65535 |
| HcChain.NextLinked | libyrmcds/lz4/lib/lz4hc.c:370-516 | so it is in every state of the parser |
| HcFinder.Finder.FindBest | libyrmcds/lz4/lib/lz4hc.c:152-204 | the result is the first of the longest matches in the chain of the position, in reach, within the number of attempts, or none |
| HcFinder.BestGood | libyrmcds/lz4/lib/lz4hc.c:166-201 | that match is a true match of its length at distance 1 to 65535 |
| HcFinder.HeadFound | libyrmcds/lz4/lib/lz4hc.c:163-175 | if the head of the chain is in reach and agrees in its first four bytes, something is found |
| HcChain.BestLongest | libyrmcds/lz4/lib/lz4hc.c:166-201 | the best match is at least as long as that with any position in reach whose first four bytes agree, if at most as many positions with its hash as there are attempts come first; and of the longest the closest |
| HcChain.PassedBy | libyrmcds/lz4/lib/lz4hc.c:370-373 | where the main loop passes a position by, no such position agrees with it |
| HcFinder.Finder.FindWider | libyrmcds/lz4/lib/lz4hc.c:206-279 | the result and the tables are those of Wider: the first of the longest extensions to both sides that the chain gives, if it is longer than asked for |
| HcFinder.WiderGood | libyrmcds/lz4/lib/lz4hc.c:206-279 | it starts at or after the lower limit and is a true match over its whole extent |
| HcChain.WiderLongest | libyrmcds/lz4/lib/lz4hc.c:232-273 | the wider match is at least as long as any around the position, extended forwards as far as the bytes agree and backwards over any stretch that repeats and does not refer to bytes before the lower limit |
| HcChain.WiderMaximal | libyrmcds/lz4/lib/lz4hc.c:232-273 | what is found cannot be extended: the bytes behind it differ, or it ends five bytes before the end; the bytes before it differ, or it or what it refers to is at the lower limit |
| HcParse.TrimRightGood | libyrmcds/lz4/lib/lz4hc.c:436-440 | a true match shortened at its end is a true match |
| HcParse.TrimLeftGood | libyrmcds/lz4/lib/lz4hc.c:416-429 | a true match whose start moves forward, and its reference with it, is a true match with the same end |
| HcParse.SeparateIs | libyrmcds/lz4/lib/lz4hc.c:410-429 | at _Search3 the second match starts where the first has 18 bytes, or ends, unless that leaves less than 4 bytes of it, and not before it did; its end and its distance stay |
| HcParse.YieldIs | libyrmcds/lz4/lib/lz4hc.c:486-505 | the last correction cuts two overlapping matches at that place, but at the start of the second if that is 15 bytes on or more |
| HcParse.YieldGood | libyrmcds/lz4/lib/lz4hc.c:486-505 | the last correction leaves two true matches that do not overlap, the second with its end unchanged |
| HcParse.MoveOutIs | libyrmcds/lz4/lib/lz4hc.c:451-472 | a second match that overlaps a written first one starts where that ends, if 4 bytes are left of it; otherwise the third takes its place |
| HcParse.NextFollows | libyrmcds/lz4/lib/lz4hc.c:372-516 | each step of the parser, from its loop and from both labels, keeps the tables right, what is written followed by the rest equal to the input, and the invariants of the labels, and moves forward |
| HcChain.AloneIsLongest | libyrmcds/lz4/lib/lz4hc.c:380-390 | one match is written on its own only if no match over its end that starts behind its start is longer |
| HcChain.TwoAreLongest | libyrmcds/lz4/lib/lz4hc.c:431-446 | two are written only if no match over the end of the second that starts at its start or behind is longer than it |
| HcParse.HcBlockSound | libyrmcds/lz4/lib/lz4hc.c:330-531 | at every level the block that the parser finds is accepted by the decoder at any capacity that holds the input, and decodes to it |
| HcLimit.LongRunUndercounted | libyrmcds/lz4/lib/lz4hc.c:303-314 | a run of fewer than 5625 literals that passes the check stays below every limit with its over-copy and its offset; a run of 5625 does not |
| HcLimit.NoMoreSpill | libyrmcds/lz4/lib/lz4hc.c:303-322 | once a sequence fails a check, no further one could pass it, so what goes on with it spills nothing more |
| HcCompress.WriteSequence | libyrmcds/lz4/lib/lz4hc.c:286-327 | a sequence passes exactly when both checks do; then its bytes are written; beyond the limit the last byte is the one SpillOne names, or nothing is written there |
| HcCompress.EncodeSequence | libyrmcds/lz4/lib/lz4hc.c:286-327 | one sequence of those the parser finds is written after the others; it fails exactly with a limit that one of its checks misses, having been written up to there |
| HcCompress.Search2Step | libyrmcds/lz4/lib/lz4hc.c:380-407 | from _Search2 the method goes where Next2 says, with its tables, candidates and sequences, or fails at a sequence of the block |
| HcCompress.Search3Step | libyrmcds/lz4/lib/lz4hc.c:410-516 | from _Search3 the method goes where Next3 says, or fails at a sequence of the block |
| HcCompress.CompressHC | libyrmcds/lz4/lib/lz4hc.c:330-531 | the bytes of HcBlock for the input and the level; with a limit the result is 0 exactly when they are more; beyond the limit nothing is written if SpillOfHc names no byte, and otherwise the furthest byte is the one it names |
| Zeros.ZerosHc | libyrmcds/lz4/lib/lz4hc.c:370-396 | n zeros, from 14 on, are one literal, one match of n - 6 bytes at distance 1, and five literals, at every level |
| HcExact.TuneBlock | libyrmcds/lz4/lib/lz4hc.c:370-396 | for a run of bytes without a repeated 4-gram in reach and zeros behind it, the parser finds one match, and the run is its literals |
| HcExact.TuneLong | libyrmcds/lz4/lib/lz4hc.c:303-310 | for such an input with a run of 5625 bytes, at every level and with a limit of 5655, the byte of index 5655 is written |
| HcExact.LimitExactlyHc | libyrmcds/lz4/lib/lz4hc.c:542-547 | the limit bounds the writes for all inputs of a length, all levels and all limits if and only if the length is below 5638 |
| HcCompress.RoundTripHC | libyrmcds/lz4/lib/lz4hc.c:534-541 | HC compression then LZ4_decompress_safe gives the input back |
| BlockStream.StreamEncoder.Renorm | libyrmcds/lz4/lib/lz4.c:812-830 | rescaling keeps the address of every candidate inside the 64 KiB window and brings the offset below 2^31 |
| BlockStream.StreamEncoder.CompressContinue | libyrmcds/lz4/lib/lz4.c:833-881 | dictSize <= currentOffset < 2^32 is kept; the block written and the table afterwards are those of the greedy search with the table as rescaled and everything from start - dictSize on within reach; so it refers only to the history that the decoder has |
| BlockStream.StreamDecoder.DecompressContinue | libyrmcds/lz4/lib/lz4.c:1188-1215 | the block is decoded after the prefix and external dictionary, wherever it goes; what the next block behind it can refer to is that followed by what was decoded |
| BlockStream.StreamRoundTrip | libyrmcds/lz4/lib/lz4.c:833-881 | any run of contiguous blocks, of any length, decodes block by block to the data |
| BlockRing.RingRoundTrip | libyrmcds/lz4/lib/lz4.c:1188-1215 | any run of blocks, decoded into places of one buffer that are used again, gives the data, if no block overwrites what it may refer to and the last 64 KiB are within reach |
| BlockRing.TwoPlacesFit | libyrmcds/lz4/lib/lz4.c:1182-1187 | two places in turn, at 0 and at 128 KiB, are room enough for any number of blocks of 64 KiB |
| XxStripes.AbsorbMore | libyrmcds/lz4/lib/xxhash.c:588-675 | folding data stripe by stripe goes on after a cut exactly from the accumulators and the bytes left over |
| XxHash32.XXH32 | libyrmcds/lz4/lib/xxhash.c:261-335 | the one-shot loop computes Hash for every input and seed |
| XxTells32.StripesTell | libyrmcds/lz4/lib/xxhash.c:284-305 | two inputs that differ in the bytes of one lane of one stripe have different hashes |
| XxTells32.OneByteTells | libyrmcds/lz4/lib/xxhash.c:284-334 | if one byte of an input changes, wherever it is, so does the hash |
| XxTells32.Published | libyrmcds/lz4/lib/xxhash.c:261-335 | the hash of "Nobody inspects the spammish repetition" is E2293B2F |
| XxHash32.State.Update | libyrmcds/lz4/lib/xxhash.c:588-675 | a state that has seen some data and is given more has seen their concatenation |
| XxHash32.State.Digest | libyrmcds/lz4/lib/xxhash.c:689-728 | the digest is the one-shot hash of all data seen, and the state is unchanged |
| XxHash32.HashPieces | libyrmcds/lz4/lib/xxhash.c:588-728 | for every split of the input, every digest on the way is the one-shot hash of what came before it |
| XxHash64.XXH64 | libyrmcds/lz4/lib/xxhash.c:366-475 | the one-shot loop computes Hash for every input and seed |
| XxTells64.StripesTell | libyrmcds/lz4/lib/xxhash.c:390-409 | two inputs that differ in the bytes of one lane of one stripe have accumulators that differ there and nowhere else |
| XxTells64.RestTells | libyrmcds/lz4/lib/xxhash.c:444-472 | if a byte behind the last whole stripe changes, so does the hash |
| XxTells64.Published | libyrmcds/lz4/lib/xxhash.c:366-475 | the hash of "Nobody inspects the spammish repetition" is FBCEA83C8A378BF1 |
| XxHash64.State.Update | libyrmcds/lz4/lib/xxhash.c:742-829 | a state that has seen some data and is given more has seen their concatenation |
| XxHash64.State.Digest | libyrmcds/lz4/lib/xxhash.c:843-922 | the digest is the one-shot hash of all data seen, and the state is unchanged |
| XxHash64.HashPieces | libyrmcds/lz4/lib/xxhash.c:742-922 | for every split of the input, every digest on the way is the one-shot hash of what came before it |
| FrameFormat.HeaderExactly | libyrmcds/lz4/lib/lz4frame.c:741-777 | seven bytes are accepted as a header with some settings if and only if the encoder writes them for those settings |
| FrameKnown.HeadersKnown | libyrmcds/lz4/lib/lz4frame.c:411-428 | two headers, as they begin the frames of other implementations: 04224D18 6440A7 and 04224D18 6470B9 |
| FrameKnown.EmptyKnown | libyrmcds/lz4/lib/lz4frame.c:671-695 | the frame of no data with a checksum is 04224D18 6440A7 00000000 055DCC02 |
| FrameFormat.AbsorbConcat | libyrmcds/lz4/lib/lz4frame.c:979-1287 | reading two pieces one after the other is reading them together |
| FrameFormat.OneVerdict | libyrmcds/lz4/lib/lz4frame.c:1236-1285 | a frame ends at one place, and if it does then no prefix of it is broken or without meaning |
| FrameFormat.ProducedGrows | libyrmcds/lz4/lib/lz4frame.c:979-1287 | output that a frame has produced is never taken back |
| FrameWindow.RoomEnough | libyrmcds/lz4/lib/lz4.c:1026-1028 | beyond 65535 bytes the amount of history does not change what is accepted |
| FrameWindow.UnpackWindow | libyrmcds/lz4/lib/lz4frame.c:1148-1172 | a linked block decoded after a dictionary that ends with the last 64 KiB of output is decoded as after all of the output |
| FrameWindow.LinkedSees | libyrmcds/lz4/lib/lz4frame.c:1140-1175 | a block that refers to the four bytes before it is decoded in a linked frame and rejected in an independent one |
| FrameWindow.KeepsFilled | libyrmcds/lz4/lib/lz4frame.c:881-904 | filling the space in front of a waiting block with the end of the dictionary keeps what the next block can see, even where the front of that space is left as it was |
| FrameDecoder.DecompressUsingDict | libyrmcds/lz4/lib/lz4.c:1254-1270 | fails exactly on malformed blocks, and otherwise writes what the block stands for after the dictionary, be it the prefix of the output or elsewhere |
| FrameDecoder.Decoder.FillInFront | libyrmcds/lz4/lib/lz4frame.c:892-902 | the dictionary moves in front of the waiting block, which is untouched, and goes on ending like the output |
| FrameDecoder.Decoder.UpdateDict | libyrmcds/lz4/lib/lz4frame.c:856-928 | in every branch the dictionary afterwards ends like the output, as far back as the block after the pending bytes can see |
| FrameDecoder.Decoder.TakeHeader | libyrmcds/lz4/lib/lz4frame.c:735-803 | a good header sets up buffers with room for the blocks of the frame, for every order of frames through one context; a bad one is what the reader calls broken |
| FrameDecoder.Decoder.RunDecoder | libyrmcds/lz4/lib/lz4frame.c:1153-1159 | whatever buffer the dictionary is in, the block is decoded as after all of the output of the frame |
| FrameDecoder.Decoder.CopyDirectStage | libyrmcds/lz4/lib/lz4frame.c:1082-1105 | part of an uncompressed block goes through to the caller, the checksum and the dictionary |
| FrameDecoder.Decoder.DecodeThrough | libyrmcds/lz4/lib/lz4frame.c:1148-1169 | a block decoded into the caller's buffer extends the output by what it stands for |
| FrameDecoder.Decoder.DecodeAside | libyrmcds/lz4/lib/lz4frame.c:1171-1210 | a block decoded into tmpOut fits there behind the dictionary and waits |
| FrameDecoder.Decoder.Flush | libyrmcds/lz4/lib/lz4frame.c:1212-1234 | the waiting block is passed on until it or the room ends |
| FrameDecoder.Decoder.Turn | libyrmcds/lz4/lib/lz4frame.c:982-1286 | one turn of the stage machine reads what the byte reader reads, keeps the invariant, and either consumes input, moves on to a stage of lower rank, or ends the call in a stage that needs no local variable |
| FrameDecoder.Decoder.PreserveDict | libyrmcds/lz4/lib/lz4frame.c:1289-1321 | at the end of a call, while blocks can still follow, the window is out of the caller's buffer unless the caller promised to keep it |
| FrameDecoder.Decoder.Decompress | libyrmcds/lz4/lib/lz4frame.c:949-1330 | after any sequence of calls the context stands for what reading the consumed bytes one by one gives, the bytes passed on are its output but for what waits, the result is 0 exactly at the end of the frame, an error means the bytes are broken or without meaning, a call stops only for lack of input or room, and it then depends on no buffer of the caller |
| FrameCodec.DecodePiece | libyrmcds/lz4/lib/lz4frame.c:949-1330 | a call with some room in the one output buffer fails only if the input is broken, passes on what comes next, and gets stuck only when there is neither input nor waiting output |
| FrameCodec.DecodeFrame | libyrmcds/lz4/lib/lz4frame.c:949-1330 | any input, cut into input and output pieces of any sizes in one buffer that is overwritten between calls, independent or linked blocks: the verdict (complete, broken, truncated) is that of reading byte by byte, and the output and the end are the same for every cut, but that a broken frame may be given up before its last output |
| FrameBlocks.AbsorbBlock | libyrmcds/lz4/lib/lz4frame.c:455-469 | a block written at any level, compressed or not, is read back as the data that it was written for |
| FrameBlocks.FrameBlockSize | libyrmcds/lz4/lib/lz4frame.c:455-469 | a block takes four bytes and the smaller of the data and what the compressor makes of it |
| FrameBlocks.WorstFits | libyrmcds/lz4/lib/lz4frame.c:437-450 | LZ4F_compressBound covers every block that an update can write, one that was buffered and the end of the frame included |
| FrameBlocks.WriteBlock | libyrmcds/lz4/lib/lz4frame.c:455-508 | the block is written with the compressor of the level, compressed when that is smaller; nothing is written behind the size of the data plus four but what BlockSpill names, and that byte is |
| FrameBlocks.LayBlock | libyrmcds/lz4/lib/lz4frame.c:455-469 | a block written behind others leaves them as they are, and the byte that reaches furthest beyond the buffer is the furthest of them all |
| FrameLimit.BoundExactly | libyrmcds/lz4/lib/lz4frame.c:437-450 | no update writes beyond LZ4F_compressBound, whatever is buffered, if and only if the level is below 3 or blocks have at most 256 KiB |
| FrameLimit.FlushExactly | libyrmcds/lz4/lib/lz4frame.c:628-659 | no flush writes beyond the size of what is buffered and sixteen, under the same condition |
| FrameLimit.FlushedOverruns | libyrmcds/lz4/lib/lz4frame.c:497-507 | from level 3 on, with autoFlush and blocks of 1 MiB or more, an update with a given input of 1048571 bytes writes the byte of index 1048588, behind the bound |
| FrameLimit.BufferedOverruns | libyrmcds/lz4/lib/lz4frame.c:539-565 | without autoFlush, an update that completes a given block of which one byte was buffered writes behind the bound |
| FrameEncoder.Encoder.Begin | libyrmcds/lz4/lib/lz4frame.c:362-430 | the header is written, or nothing when there is no room or a frame is open; any level, any block size |
| FrameEncoder.Encoder.Update | libyrmcds/lz4/lib/lz4frame.c:519-617 | fails exactly without the room of LZ4F_compressBound; otherwise the frame so far reads as the input but for the buffered rest, its length is within the bound, the checksum has seen the piece cut to its length modulo 2^32, and what is written behind the buffer is exactly what BlocksSpill says |
| FrameEncoder.Encoder.UpdateNearly | libyrmcds/lz4/lib/lz4frame.c:519-617 | that is at most 65 bytes behind the bound, at every level |
| FrameEncoder.Encoder.Flush | libyrmcds/lz4/lib/lz4frame.c:628-659 | the buffered rest becomes a block of its own, at every level; it fails exactly without room for it and sixteen bytes |
| FrameEncoder.Encoder.End | libyrmcds/lz4/lib/lz4frame.c:671-695 | the frame reads as all of the data and ends well if and only if the hash taken is that of the data; without early flushing it is the one frame FrameOf gives; without an open frame the end mark is written all the same; it writes beyond the size it is given exactly when nothing is buffered and there is no room for the end mark and the checksum |
| FrameCodec.EndOverruns | libyrmcds/lz4/lib/lz4frame.c:671-695 | a frame that is begun and ended at once in a buffer of size 0 is written behind it |
| FrameCodec.EncodeFrame | libyrmcds/lz4/lib/lz4frame.c:519-695 | for any pieces, flushes and settings with independent blocks, at every level, the frame stands for the data if and only if the checksum, if any, of what was hashed is that of the data; with autoFlush 0 and no flush it is byte for byte the same for every cut but for the checksum |
| FrameCodec.HashedAll | libyrmcds/lz4/lib/lz4frame.c:613-614 | the checksum sees all of the data when every piece is shorter than 2^32 bytes |
| FrameCodec.LongPieceRejected | libyrmcds/lz4/lib/lz4frame.c:613-614 | of a piece of 2^32 + 1 bytes it sees the first; with at least one of two values of the last byte the frame is rejected |
| FrameCodec.ChangeRejected | libyrmcds/lz4/lib/lz4frame.c:1258-1285 | a frame with a content checksum is rejected if any one byte of its content is not what it was |
| XxTells32.LastByteTells | libyrmcds/lz4/lib/xxhash.c:321-334 | two values of one more byte have different hashes |
| FrameCodec.FrameRoundTrip | libyrmcds/lz4/lib/lz4frame.c:519-695 | through a frame and back, at every level and in pieces of any sizes on all sides, gives the data if and only if the checksum fits, and is rejected otherwise |
| Wire.BERoundTrip | libyrmcds/recv.c:44-60 | network byte order and back is the identity for numbers that fit |
| Wire.ReplyParses | libyrmcds/recv.c:83-139 | a response with the given fields is recognised as one whole packet with exactly these fields |
| Wire.AnyReplyParses | libyrmcds/recv.c:96-139 | a response with any extras, key and data is recognised as these, with the number of an increment or decrement, or is broken exactly when the extras are neither 0 nor 4 bytes or that number is not 8 bytes |
| Wire.InflateExactly | libyrmcds/recv.c:141-168 | a flagged value is decompressed to d exactly when it is the length of d and a block, within the limits of a whole one, that stands for d |
| Wire.FrameStable | libyrmcds/recv.c:78-102 | what has been recognised at the start of a stream does not change when more arrives |
| Wire.FramesGrow | libyrmcds/recv.c:62-173 | the packets of a stream are the first packets of the stream when more has arrived |
| Wire.StoredComesBack | libyrmcds/send.c:132-154 | flags and bytes that were stored come back as the flags and data given, on both sides of the threshold, exactly when the length survives its cast to 32 bits |
| Wire.StoredAbove | libyrmcds/send.c:132-154 | a value is sent as it is up to the threshold; above it with its flag, its length and a block that decodes to it, unless the flag is taken or it is too long |
| Wire.LongValueLost | libyrmcds/send.c:132-154 | a value of 2^32 bytes that is compressed comes back empty |
| Wire.NothingUnread | yrmcds.c:162-169 | reading up to a reply leaves nothing behind if and only if the stream is whole packets, the last is the reply and no earlier one has its serial number |
| Wire.SecondReplyUnread | yrmcds.c:162-169 | when the reply comes twice, the second is left |
| Client.Advance | libyrmcds/send.c:100-114 | after n bytes the shifted and trimmed buffers are the message without its first n bytes |
| Client.Yrmcds.RecvData | libyrmcds/recv.c:21-42 | there is RECV_SIZE room before recv, the capacity never exceeds 64 MiB, and no byte is lost, also on failure |
| Client.Yrmcds.Recv | libyrmcds/recv.c:62-173 | returns the first packet of the stream, decompressed, and drops only the previous one; an error of the protocol only for a broken packet; a socket error only when a call failed or no whole packet is there, and then nothing is lost |
| Client.Yrmcds.Transmit | libyrmcds/send.c:92-115 | whatever writev does, the result is OK exactly when no call failed, and then the whole message was sent once; otherwise one call failed and a proper prefix was sent |
| Client.Yrmcds.SendCommand | libyrmcds/send.c:35-122 | bad arguments, and only they, send nothing; otherwise the serial advances by one and the request goes out as one message, with an error exactly when a call failed |
| Client.Yrmcds.SendData | libyrmcds/send.c:124-165 | the value goes out as Stored says, compressed above the threshold; each refusal has its cause and changes nothing; a system error means that a call failed |
| Sessions.ReceiveAll | libyrmcds/recv.c:62-173 | over any number of calls and any socket behaviour the packets of the stream are returned in order, none twice and none lost, and every other call is one in which a system call failed or no whole packet was left |
| Sessions.RequestArrives | libyrmcds/send.c:47-90 | a server that cuts a request out of its stream by the length in the header finds command, serial number, CAS, key, extras and data in it, and what follows it left |
| Sessions.SetThenGet | libyrmcds/send.c:124-165 | a server that cuts the request out of what was sent, keeps its flags and bytes and returns them, behind whole packets it has sent before, makes the reader see the flags and data given to the writer in the packet after those, for any short writes and interrupted calls; it ends otherwise only if a system call failed, so many that the tries ran out, an earlier packet cannot be decompressed, an argument is illegal, or the value is too large to compress |
| Persistent.AwaitReply | yrmcds.c:162-169 | reads up to the first packet with the serial number and no further; it succeeds exactly when no call failed and that packet is there |
| Persistent.Check | yrmcds.c:202-221 | a connection passes exactly when no call failed and the no-op was answered well |
| Persistent.Settle | yrmcds.c:155-176 | the goodbye goes well exactly when no call failed and the reply says so; then everything up to the reply has been read, and nothing is left if and only if that reply was the last of the stream |
| Persistent.Extension.DestructConn | yrmcds.c:151-184 | one reference goes; a persistent connection is closed and unlisted exactly when the goodbye did not go well and it was the last, any other always |
| Persistent.Extension.Delete | yrmcds.c:111-122 | the books change as Forget says and stay right; the goodbye goes as Settle says, and on the other connections nothing changes |
| Persistent.Extension.TryExisting | yrmcds.c:240-254 | without stale detection, or when the no-op is answered well, a listed connection gets one more reference; otherwise it is closed and unlisted exactly when nobody uses it |
| Persistent.Extension.ConstructNew | yrmcds.c:312-344 | a connection that gets through is registered and held, and one gets through exactly when the server accepts it and the timeout can be set |
| Persistent.Extension.ConstructExisting | yrmcds.c:230-254 | of a listed connection: taken, dropped or left alone, with the books as Take and Drop say |
| Persistent.Extension.Construct | yrmcds.c:264-347 | the books change as Build says and stay right: the connection of the key is taken if it is healthy, given up if nobody uses it, replaced if that is possible; it throws otherwise; an object that held a connection loses the reference; healthy is what the no-op says, if it is wanted, and nothing changes on the other connections |
| Persistent.KeysTell | yrmcds.c:288-293 | different identifiers have different keys, and only the empty one has none |
| Persistent.Extension.Reachable | yrmcds.c:111-220 | in every reachable state the reference count is the number of live objects holding the connection plus the references overwritten, no live object points at a closed connection, one in use is the listed one, and a connection is closed if and only if nothing can reach it |
| Runs.Run | yrmcds.c:100-347 | any run of creations, constructions, uses and destructions, against any servers, goes step by step as the transition system says: the objects, the books and what was sent, received and is left on each connection are those of After; a listed connection is healthy, and a goodbye goes well, exactly when calls and replies say so |
| Runs.RunBalanced | yrmcds.c:100-347 | in every state of every run the books of all connections are right |
| Runs.ObjectsFollow | yrmcds.c:100-122 | the objects are those that were created, and those are alive that were not destroyed |
| Runs.HeldByName | yrmcds.c:264-347 | after any run, every live object holds a connection of the identifier it was last constructed with, or none if it never was |
| Runs.SharedByName | yrmcds.c:264-347 | two objects share a connection if and only if they were constructed with the same identifier and it is not empty |
| Runs.CountsExact | yrmcds.c:249-343 | after any run all reference counts are exact if and only if no object that held a connection was constructed again |
| Runs.TwiceLeaks | yrmcds.c:297-343 | create, construct, construct, destroy: a connection stays open with a count of 1 and nobody holds it |
| Runs.ConstructTwice | yrmcds.c:297-343 | the extension does that |
| Persistent.TakeKeeps | yrmcds.c:249-253 | when an object takes a listed connection, the books stay right, also if it held one before |
| Persistent.ForgetKeeps | yrmcds.c:111-184 | when an object goes, with or without a good goodbye, the books of all connections stay right |
| Persistent.AddKeeps | yrmcds.c:313-329 | when an object takes a new connection and it is listed under its key, the books stay right |
| Persistent.BuildKeeps | yrmcds.c:288-344 | whatever the constructor meets, the books stay right |

## Left out

- 32-bit and big-endian machines, `byPtr` tables and the compiler-intrinsic forms of counting zero bits.
- `LZ4_decompress_fast` and its variants, which trust the input to be as long as the output needs.
- Compression against an external dictionary, `LZ4_loadDict`, `LZ4_saveDict`, and streaming in `lz4hc.c`;
  so frames with linked blocks are decoded here but not encoded.
- HcCompress.CompressHC: of the bytes written beyond the limit, the furthest is named, not all of them.
- FrameEncoder.Encoder.Update: models independent blocks. Linked ones compress against earlier input.
- FrameBlocks.WriteBlock: the compressor works on a copy of the rest of the buffer, which is put back; in the
  original it works there directly.
- FrameEncoder.Encoder.End: requires the memory behind the buffer that it may write to.
- FrameCodec.DecodeFrame: requires an input without blocks that copy from offset 0, which have no meaning.
- FrameDecoder.Decoder.Decompress: requires output buffers below 2^31 bytes, because the size of a dictionary
  that lies in one of them is cast to `int`; a context is not used again after an error.
- `LZ4F_getFrameInfo`, `LZ4F_compressFrame`, frame preferences other than those of the header.
- The lifetime of the caller's buffers: between frames the decoder may still read a dictionary in one.
- XxHash32.State.Update: does not model a total length beyond 64 bits.
- XxTells64.StripesTell: states that the accumulators differ, not that the hashes do, because each of them is
  merged into the hash twice.
- BlockStream.StreamDecoder.DecompressContinue: requires that the output does not overwrite what it may refer to;
  the original reads whatever is there by then.
- Allocation failure, and the overflow tests on pointers.
- Client.Yrmcds.Recv: a compressed value shorter than its length field is a protocol error without the reads
  of leftover buffer bytes that precede it in the original; `malloc(0)` succeeds.
- Persistent.SetTimeout: does not model negative timeouts, which the original refuses.
- Runs.Run: the requests of a run are sent by `send_command`; values that may be compressed are in `Client`.
- Persistent.Extension.Construct: the arguments of PHP, the prefix of keys, and module shutdown are not modelled.
- Mutexes, connecting and closing sockets, the other commands (they call `send_command` or `send_data` directly).
- `libyrmcds/counter.c`, `yrmcds_session.php`, `yrmcds_php5.c`, and the LZ4 command-line programs.
