# Verified models of the server library's cores

The library is a header collection for C++ servers. This project models the parts of it that keep state
and carry a promise, in Dafny, and proves the promises for all inputs or all runs:

* **LZO1X-1** (`Lz77`, `LzoFormat`, `LzoParse`, `LzoLaws`, `LzoCompress`, `LzoDecompress`, `LzoRoundTrip`): the
  compressor with its 16-bit dictionary, its blocks and the literals carried between them, the decompressor's
  labels and jumps, and both ends meeting in a token list that is the meaning of a stream. `LzoParse` says
  without the dictionary which positions are looked at, what is found there and which tokens that makes: a
  text has exactly one such parse, and it is the one the compressor writes.
* **QuickLZ level 3** (`QlzFormat`, `QlzChoice`, `QlzLaws`, `QlzCompress`, `QlzDecompress`, `QlzRoundTrip`): the hash
  table with its 16 ways and wrapping counters, control words with a sentinel, the five match codes, the
  give-up test and the stored form. `QlzChoice` says without the table which earlier positions count, which
  match is taken and when the compression is given up: a text has exactly one list of items.
* **Byte streams** (`Varint`, `StreamBase`, `StreamFormat`, `GrowingBuffer`, `InStream`, `OutStream`,
  `StreamRoundTrip`): typed values, back-patched counts, varints, byte order, stubs and the growing buffer.
* **Lock-free attribute table** (`AttrTable`): atomic steps of any number of threads in any order.
* **Consistent hash ring** (`ConsistentHash`): the two tables, the probe chain, the lookup.
* **Rates** (`Adler32`, `FreqControl`, `FreqCounter`): the deferred modulo, the token bucket, the window of
  counts.

`Bytes` and `Words` hold what these share: byte strings, little-endian words, exclusive or.

The configuration is amd64, little-endian memory, LZO deterministic with 14 dictionary bits, QuickLZ level 3
without streaming. C integers are written out where their width matters: `u32` and `u64` are subset types, so
an assignment to one is a proof that nothing wrapped, and a wrap that does happen is a `%`. An OR of numbers
without a common bit is written as an addition. Input buffers are sequences, output buffers and tables are
arrays or fields that the methods overwrite. The clock, a key's hash and the host's byte order are inputs.

## Where the code and its promise part

Each of these is proved in both directions, or with the exact condition, and has a concrete input.

* `setValue` need not return. The search for a free position goes round for ever exactly when the first
  |ring| + 1 probes all hit (`ProbeBound`); in an empty ring the value `Unhash(0xffff0000)` with any weight
  above 1 does that (`SetHangs`). `SetValue` returns `false` where the source does not return.
* The token bucket gives wrong tokens when `freq * dt` leaves 63 bits (`GeneratedExactly`): too few if what is
  left after the wrap does not fill the bucket (`GeneratedWraps`), too many if it reads as negative and fills a
  bucket that is larger than what is due (`GeneratedOverfills`).
* Every microsecond counts once exactly if no call of `generate` goes by a time behind the bucket's own, and
  some count twice otherwise (`CountsOnce`); a time ahead of the clock followed by a call that goes back to the
  clock is such a run (`BackwardsCountsTwice`).
* The frequency window is right for the first 2^31 seconds and not after (`IndexExact`, `IndexFallsBack`).
* A stub whose position wraps lies before the cursor (`PushedSafe`, `PushedWraps`), and a buffer asked for
  nearly 2^64 bytes does not get them (`ResizedExactly`, `ResizedWraps`).
* An array longer than its count can say or its limit allows does not come back (`RoundTrip`, `Transfer`): 256
  elements behind a count of one byte are read as none (`LongArray`), and a reader refuses the bytes of an array
  over its limit (`ArrayOverLimit`).

## Model

| member | source | states |
|---|---|---|
| Lz77.CopyMatchPrefix | minilzo/minilzo.c:3991-3995 | A byte-by-byte copy from behind leaves what was there, and has the asked-for length. |
| Lz77.CopyMatchBlock | minilzo/minilzo.c:3951-3970 | Copying whole words is the byte-by-byte copy whenever the distance is at least the word. |
| Lz77.CopyMatchReproduces | minilzo/minilzo.c:3311-3386 | If two stretches of a text are equal, a copy from the first reproduces the second, overlap included. |
| LzoFormat.Append | minilzo/minilzo.c:3242-3444 | One more token: what it adds to the text and to the bytes. |
| LzoFormat.EncodePatch | minilzo/minilzo.c:3247-3257 | Recording a short run in the second byte from the end gives the bytes of the same tokens with those spare bits. |
| LzoFormat.CodePatch | minilzo/minilzo.c:3387-3443 | Every match code keeps its two spare bits in its second byte from the end. |
| LzoFormat.CodeForm | minilzo/minilzo.c:3387-3443 | Two bytes exactly up to length 8 and distance 2048, three exactly in the short forms of the other two, and the first byte tells the three apart. |
| LzoFormat.ValidPrefix | minilzo/minilzo.c:3242-3444 | The first tokens of a sound list are a sound list, and stand for a prefix of its text. |
| LzoFormat.EncodeSize | minilzo/minilzo.c:3242-3443 | The bytes of any token list are within a sixteenth of the text it stands for. |
| LzoFormat.StreamSize | compress_lzo.hh:138-140 | A stream is at most n + n/16 + 5 bytes, below the n + n/16 + 67 its caller provides. |
| LzoFormat.StoredSize | minilzo/minilzo.c:3481-3516 | The exact size of a stream without matches: 3, n + 4 up to 238 bytes, and from there a byte more for every 255. |
| LzoParse.DindexBits | minilzo/minilzo.c:2794-2794 | The hash is the fourteen bits from bit 18 on of the 32-bit product. |
| LzoParse.EntryLatest | minilzo/minilzo.c:3232-3236 | What the dictionary has is the last position looked at in the block with the same hash. |
| LzoParse.Hurries | minilzo/minilzo.c:3228-3229 | Where nothing matches, every position of the first 32 after a match is looked at, every other of the next 32, and so on. |
| LzoParse.ParsedOnce | minilzo/minilzo.c:3166-3479 | No text has two complete parses: blocks, positions, matches and lengths are determined by the text alone. |
| LzoLaws.OneStream | minilzo/minilzo.c:3451-3518 | So is the stream, whatever the dictionary and the buffer held before. |
| LzoLaws.FirstMatch | minilzo/minilzo.c:3182-3240 | From 32 bytes on the stream starts with five literals and a match five bytes back exactly if bytes 5 to 8 are bytes 0 to 3. |
| LzoLaws.StoredWhole | minilzo/minilzo.c:3238-3240 | If no four bytes occur twice there is no match, and the stream has exactly the size of a text without matches. |
| LzoLaws.RepeatSize | minilzo/minilzo.c:3451-3518 | n equal bytes make a stream of at most n/200 + 100 bytes. |
| LzoCompress.WriteExt | minilzo/minilzo.c:3279-3291 | Writes the zero bytes and the rest of a long count. |
| LzoCompress.WriteRunHeader | minilzo/minilzo.c:3275-3292 | The header of a run, short or long. |
| LzoCompress.WriteRun | minilzo/minilzo.c:3246-3308 | Patches, or writes the header of, a literal run and then its bytes, for every length, with wide stores. |
| LzoCompress.WriteLiterals | minilzo/minilzo.c:3242-3310 | The run before a match, including no run at all. |
| LzoCompress.WriteLength | minilzo/minilzo.c:3401-3417 | Marker and length, in the byte or after it. |
| LzoCompress.WriteOffset | minilzo/minilzo.c:3418-3419 | The two bytes of a distance, spare bits clear. |
| LzoCompress.WriteMatch | minilzo/minilzo.c:3383-3443 | The code of a match in the form its length and distance ask for. |
| LzoCompress.EqualWords | minilzo/minilzo.c:3313-3323 | A zero XOR of two words means eight more equal bytes. |
| LzoCompress.UnequalWords | minilzo/minilzo.c:3331-3332 | The trailing zeros of a non-zero XOR, divided by eight, count the equal bytes before the first difference. |
| LzoCompress.MatchLength | minilzo/minilzo.c:3311-3383 | Every byte counted is equal; it stops at the first difference, or with the first word of eight that ends past the last start of a match, and no earlier. |
| LzoCompress.TokenSound | minilzo/minilzo.c:3383-3387 | A match that was found extends the tokens by exactly the bytes it covers. |
| LzoCompress.Lookup | minilzo/minilzo.c:3226-3240 | Returns the old entry, overwrites that entry alone, and says whether the four bytes agree. |
| LzoCompress.TryMatch | minilzo/minilzo.c:3226-3444 | A token exactly on a hit, with the distance to the old entry and the longest length the search can report; the tokens still cover the text and the buffer still holds them. |
| LzoCompress.Look | minilzo/minilzo.c:3226-3444 | One position: the dictionary is again the last position looked at for every hash, and the tokens are those of the positions so far. |
| LzoCompress.AddToken | minilzo/minilzo.c:3242-3443 | A match of equal bytes appends its token to the buffer and to the text. |
| LzoCompress.DoCompress | minilzo/minilzo.c:3166-3449 | One block: it looks at exactly the positions of the parse, makes a token exactly where the entry agrees in four bytes, and stops at the first position past the search; the tokens cover the text up to the unwritten literals, and the count of those is returned. |
| LzoCompress.WriteTailHeader | minilzo/minilzo.c:3485-3508 | What announces the last literals: a first byte, two spare bits, or a run header. |
| LzoCompress.WriteEndMarker | minilzo/minilzo.c:3512-3514 | The end marker. |
| LzoCompress.Finish | minilzo/minilzo.c:3481-3516 | The last literals in each of their four forms and the end marker complete the stream. |
| LzoCompress.Compress | minilzo/minilzo.c:3451-3518 | For every input the output is the stream of tokens that stand for the input, within n + n/16 + 5 bytes, and they are the tokens of the text's one complete parse. |
| LzoDecompress.CopyLiterals | minilzo/minilzo.c:3696-3711 | Eight, four and one byte at a time: the literals, exactly. |
| LzoDecompress.CopyFar | minilzo/minilzo.c:3952-3970 | The word-wise copy is the byte-by-byte copy for distances of eight and more. |
| LzoDecompress.CopyBack | minilzo/minilzo.c:3950-3995 | Either copy is the match's meaning, for every distance. |
| LzoDecompress.ReadCount | minilzo/minilzo.c:3831-3841 | Reads back a long count. |
| LzoDecompress.DecodeM2 | minilzo/minilzo.c:3775-3827 | A code of 64 and more gives back length and distance. |
| LzoDecompress.DecodeM3 | minilzo/minilzo.c:3828-3865 | A code from 32 to 63 gives back length and distance. |
| LzoDecompress.DecodeM4 | minilzo/minilzo.c:3866-3915 | A code from 16 to 31 gives back length and distance and is never the end marker. |
| LzoDecompress.EndMarkerCode | minilzo/minilzo.c:3907-3909 | The end marker is one of those codes with distance zero. |
| LzoDecompress.ReadTop | minilzo/minilzo.c:3678-3742 | A run of four or more, or straight to a match. |
| LzoDecompress.ReadMatchNext | minilzo/minilzo.c:4008-4016 | One to three literals and the first byte of the next code. |
| LzoDecompress.Start | minilzo/minilzo.c:3665-3676 | The first byte of a stream leads to the label that fits it. |
| LzoDecompress.DoTop | minilzo/minilzo.c:3678-3742 | The top of the loop keeps the invariant. |
| LzoDecompress.DoFirstLiteralRun | minilzo/minilzo.c:3744-3771 | So does the label after a long run; the short match there is not reached. |
| LzoDecompress.DoMatch | minilzo/minilzo.c:3774-3995 | So does a match: its text is out, or the end is found. |
| LzoDecompress.DoMatchDone | minilzo/minilzo.c:3999-4006 | So does the look at the spare bits. |
| LzoDecompress.DoMatchNext | minilzo/minilzo.c:4008-4016 | So do the literals they announce. |
| LzoDecompress.Step | minilzo/minilzo.c:3678-4017 | Every jump keeps the invariant: the output is the text so far and the input left is the rest of the stream. |
| LzoDecompress.Decompress | minilzo/minilzo.c:3620-4029 | On the stream of any token list: success, the whole stream used, and the text it stands for. |
| LzoRoundTrip.CompressThenDecompress | minilzo/minilzo.c:3451-4029 | For every input: within the buffer, status OK, and the input again; n equal bytes shrink to n/200 + 100. |
| QlzFormat.FillingIs | quicklz/quicklz.c:436-436 | Where the sentinel and the items' bits are while a control word fills. |
| QlzFormat.FillingFull | quicklz/quicklz.c:273-285 | The sentinel is the lowest bit exactly when 31 items are in, and then the word is the items' bits and a new sentinel. |
| QlzFormat.CodeForm | quicklz/quicklz.c:439-468 | How many bytes the code of a match takes, for every length and distance. |
| QlzFormat.ReadsGroup | quicklz/quicklz.c:568-580 | A group reads back as its items, whatever follows. |
| QlzFormat.ReadsGroups | quicklz/quicklz.c:568-580 | So does a list of groups. |
| QlzFormat.CodeSize | quicklz/quicklz.c:439-468 | No code is longer than the text it stands for. |
| QlzFormat.GroupsSize | quicklz/quicklz.c:273-285 | Closed groups are within a bound of the text they stand for. |
| QlzChoice.HashParts | quicklz/quicklz.c:95-95 | The hash is the exclusive or of the lowest twelve bits and the twelve above them. |
| QlzChoice.RemainingIs | quicklz/quicklz.c:369-369 | A match may reach up to the last four bytes, or 255. |
| QlzChoice.ChosenOnce | quicklz/quicklz.c:366-476 | There is exactly one thing to do at a position: the longest and then nearest match among the last sixteen positions with its hash (fewer right after the counter wrapped), or a literal. |
| QlzChoice.WholeOnce | quicklz/quicklz.c:255-541 | No text has two lists of items. |
| QlzChoice.NeverHopeless | quicklz/quicklz.c:271-285 | If no full group closed on the way was a reason to give up, no list of items is one. |
| QlzLaws.SameMatch | quicklz/quicklz.c:376-434 | In a text of equal bytes the best match is three bytes back and as long as it may be. |
| QlzLaws.SameLiteral | quicklz/quicklz.c:376-418 | Unless fewer than three positions are vouched for, at the start and whenever the counter has wrapped: then it is a literal. |
| QlzLaws.SameGreedy | quicklz/quicklz.c:271-507 | Where every item of a text of equal bytes ends: three literals, and then a match of 255 and a literal by turns. |
| QlzLaws.SameNotHopeless | quicklz/quicklz.c:276-277 | Equal bytes are never stored. |
| QlzLaws.SameSize | quicklz/quicklz.c:255-550 | n equal bytes make a body of at most n/31 + 70 bytes. |
| QlzLaws.StoredPlain | quicklz/quicklz.c:276-277 | A text of 84 bytes or more in which no three bytes occur twice is stored. |
| QlzCompress.State.Insert | quicklz/quicklz.c:419-421 | One way of one set is overwritten and the counter goes up, wrapping at 256; every way it vouches for stays a past position. |
| QlzCompress.SameThree | quicklz/quicklz.c:382-382 | The masked XOR of two fetches is zero exactly if three bytes agree. |
| QlzCompress.State.Reset | quicklz/quicklz.c:747-747 | No counter vouches for anything. |
| QlzCompress.Extend | quicklz/quicklz.c:388-389 | The longest agreement within the limit. |
| QlzCompress.FindMatch | quicklz/quicklz.c:379-418 | No match exactly if no way can be used; otherwise the longest, and the nearest of those, of all the ways the counter vouches for. |
| QlzCompress.Choose | quicklz/quicklz.c:366-434 | The one item of the position: the best match of what is remembered unless it is too far, and a literal exactly if there is none; every position up to where the next item starts is entered. |
| QlzCompress.Enter | quicklz/quicklz.c:419-421 | With every position before it entered, one more: every counter is the number of positions with its hash, modulo 256, each of the last sixteen is in its way, and no other way changes. |
| QlzCompress.WayRemembered | quicklz/quicklz.c:376-418 | The ways the counter vouches for hold remembered positions. |
| QlzCompress.RememberedWay | quicklz/quicklz.c:376-418 | And all of them. |
| QlzCompress.InsertSkipped | quicklz/quicklz.c:429-434 | The table afterwards: the positions a match skips are entered, each in the next way of its set, with every counter counting them, and no other way changes. |
| QlzCompress.WriteMatch | quicklz/quicklz.c:439-468 | The shortest of the five codes. |
| QlzCompress.Flush | quicklz/quicklz.c:273-285 | A full group gets its control word and a new one starts. |
| QlzCompress.EmitItem | quicklz/quicklz.c:366-476 | The one item of the position and nothing else is appended, with its bit. |
| QlzCompress.MakeRoom | quicklz/quicklz.c:273-285 | A full group is closed and no item lost; the compression is given up exactly if a full group ends past the middle and all groups up to it do not save a thirty-second. |
| QlzCompress.MainLoop | quicklz/quicklz.c:271-507 | The items are the chosen ones and stand for the text up to the last eleven bytes, and no full group has been a reason to give up; or it gives up at full groups that are one. |
| QlzCompress.TailLoop | quicklz/quicklz.c:508-541 | The last bytes are literals, exactly those of the text. |
| QlzCompress.Normalize | quicklz/quicklz.c:543-546 | Shifting out the sentinel leaves the last control word with its items lowest. |
| QlzCompress.Core | quicklz/quicklz.c:255-550 | Zero exactly if there are chosen full groups that end past the middle and before the last eleven bytes and have not saved a thirty-second; otherwise the text's one list of items, exactly its bytes (at least nine), within the size bound. |
| QlzCompress.WriteHeader | quicklz/quicklz.c:786-804 | The header reads back as the mode and both sizes, its first byte has the level and the fixed bit, and nothing behind it changes. |
| QlzCompress.Compress | quicklz/quicklz.c:729-807 | A packet of at most size + 155 bytes with a header that says both sizes; compressed exactly if there is no reason to give up, and then the bytes of the text's one list of items; the short header holds both sizes when the size is below 216. |
| QlzDecompress.DecodeEncode | quicklz/quicklz.c:633-662 | The five codes are told apart and each gives back length and distance. |
| QlzDecompress.MemcpyUp | quicklz/quicklz.c:202-222 | Four-byte stores three apart leave the right first n bytes for every distance of three and more. |
| QlzDecompress.Bitlut | quicklz/quicklz.c:561-561 | The table counts the zeros below the lowest one of four bits: the word can be divided by that power of two, and the quotient is odd unless all four are zero. |
| QlzDecompress.LiteralRun | quicklz/quicklz.c:685-695 | As many zero bits as the table says are that many literals. |
| QlzDecompress.EnoughBytes | quicklz/quicklz.c:578-587 | What is left to read has a byte at least for every item left. |
| QlzDecompress.CanFetch | quicklz/quicklz.c:578-587 | Every four-byte fetch stays within the packet. |
| QlzDecompress.DoMatch | quicklz/quicklz.c:589-676 | One match: what is out so far grows by its text. |
| QlzDecompress.DoLiterals | quicklz/quicklz.c:685-695 | One to four literals, and the wide store stays within the text. |
| QlzDecompress.DoTail | quicklz/quicklz.c:700-722 | The last literals, across a control word if there is one. |
| QlzDecompress.Core | quicklz/quicklz.c:552-727 | On a body that encodes a text: the text. |
| QlzDecompress.Decompress | quicklz/quicklz.c:809-847 | On a packet of a text, stored or compressed: the text and its size. |
| QlzRoundTrip.CompressThenDecompress | quicklz/quicklz.c:729-847 | For every input of 1 to 0xffffffff - 400 bytes: the input again; n equal bytes shrink to n/31 + 79. |
| Varint.VarMinimal | data_stream.hh:1956-2021 | A number takes k groups or fewer exactly if it is below 128^k. |
| Varint.VarGroup | data_stream.hh:1956-2021 | The i-th byte has the i-th seven bits from below, and its top bit exactly if it is not the last. |
| Varint.VarRoundTrip | data_stream.hh:1412-1438 | For every width, reading what was written gives the number and ends where the writing ended. |
| Varint.GroupsCut | data_stream.hh:1412-1438 | A number cut off by the limit is not read. |
| Varint.ZigZag | impl/data_stream_impl.hh:610-612 | The shifts and the XOR send 0, -1, 1, -2 to 0, 1, 2, 3, for every width. |
| Varint.ZigZagBack | impl/data_stream_impl.hh:613-615 | And back. |
| Varint.ZigZagRoundTrip | impl/data_stream_impl.hh:600-615 | Signed numbers and words of a width correspond one to one. |
| StreamBase.EnsuredExactly | data_stream.hh:1458-1465 | Room is found exactly if the bytes end within the stub and the data, even where the input's sum wraps. |
| StreamBase.PushedSafe | data_stream.hh:1375-1378 | A push keeps the cursor within the top stub exactly if the position does not wrap. |
| StreamBase.PushedWraps | data_stream.hh:1375-1378 | An input for which it does not. |
| StreamBase.SeekBack | data_stream.hh:1352-1357 | After a good detour under the same stubs the cursor goes back where it was. |
| StreamBase.SoughtExactly | data_stream.hh:1166-1173 | A seek goes to any place within the stub and the data and fails for any other. |
| StreamBase.SkippedExactly | data_stream.hh:1622-1630 | A relative seek goes to the cursor and the offset together, forwards and backwards, exactly if that is such a place. |
| StreamBase.EndedExactly | data_stream.hh:1388-1393 | The end takes the stubs away and fails exactly if data is left. |
| StreamBase.AfterSafe | impl/data_stream_impl.hh:136-173 | Every call keeps a stream safe, a read whose position would wrap included, and moves nothing once it has failed. |
| StreamBase.RunSafe | impl/data_stream_impl.hh:136-173 | So does every run of calls: the cursor of a good stream is within the top stub and the data, that of a failed one never moves again. |
| StreamBase.StubsKept | impl/data_stream_impl.hh:136-153 | Well nested calls that come out good leave the stubs below them alone. |
| StreamBase.StubAround | data_stream.hh:1375-1387 | A stub, any well nested calls that come out good, and the pop: the stubs are as before, the cursor is at the end of the stub if it aligns and where the calls left it if not, and it fails exactly if a check finds the stub not used up or the place lies behind the stub below or the data. |
| StreamFormat.SwapBytes | data_stream.hh:1948-1955 | Swapping when the orders differ gives bytes that depend on the order of the data alone. |
| StreamFormat.SwapValue | data_stream.hh:1403-1411 | The same for reading. |
| StreamFormat.ByteOrder | data_stream.hh:1948-1955 | Byte by byte: lowest first in little endian, highest first in the network's order. |
| StreamFormat.OrderedBytes | data_stream.hh:1774-1779 | Something in an order of its own is written in that order, whatever the order around it. |
| StreamFormat.PodsAll | data_stream.hh:1449-1456 | Copying a whole array reads what the loop over its elements reads, and fails where it fails. |
| StreamFormat.SamePods | data_stream.hh:2029-2036 | The memory of an array is what the loop over its elements writes, when it may be copied. |
| StreamFormat.RoundTrip | data_stream.hh:1320-1329 | Reading what was written gives the value back and ends where it ended exactly if every array fits its count and its limit; else the read fails or gives another value. |
| GrowingBuffer.ResizedExactly | impl/data_stream_impl.hh:262-267 | There is room after growth exactly if there was before or no sum leaves 64 bits. |
| GrowingBuffer.ResizedWraps | impl/data_stream_impl.hh:262-267 | An input for which there is not. |
| GrowingBuffer.GrowingBuffer.Ensure | impl/data_stream_impl.hh:262-267 | Room for what was asked, in a buffer that starts with what it was. |
| GrowingBuffer.GrowingBuffer.Seek | impl/data_stream_impl.hh:268-273 | The cursor moves, the buffer grows if it has to, and no byte changes. |
| GrowingBuffer.GrowingBuffer.Append | impl/data_stream_impl.hh:274-280 | The bytes are at the cursor and everything else is as before. |
| GrowingBuffer.GrowingBuffer.Insert | impl/data_stream_impl.hh:281-290 | The text with the bytes in its middle, and nothing before the beginning touched. |
| GrowingBuffer.GrowingBuffer.ExportData | impl/data_stream_impl.hh:291-295 | The buffer is cut to what was written. |
| InStream.FirstTwo | data_stream.hh:1423-1433 | The sign of the first two bytes is masked away, and the tests see the right numbers. |
| InStream.InStream.Seek | data_stream.hh:1166-1173 | Within the stub and the data, or a failure. |
| InStream.InStream.Skip | data_stream.hh:1184-1184 | The same, from the cursor, modulo 2^64. |
| InStream.InStream.StubPush | data_stream.hh:1375-1378 | One stub more, modulo 2^64, in a good stream. |
| InStream.InStream.End | data_stream.hh:1388-1393 | No stubs, and a failure if anything is left. |
| InStream.InStream.StubPop | data_stream.hh:1379-1387 | Takes the stub, checks, and goes on at its end if it aligns and at the cursor if not, or fails there: exactly when. |
| InStream.InStream.Ensure | data_stream.hh:1458-1465 | True exactly for a good stream with that many bytes before its limit; else a failure. |
| InStream.InStream.ReadPod | data_stream.hh:1403-1411 | The integer in the order of the data, on a host of any order. |
| InStream.InStream.ReadVarintByte | data_stream.hh:1412-1422 | The overload for one byte is the parse of that width. |
| InStream.InStream.ReadVarintWide | data_stream.hh:1423-1438 | So is the template, with its masks, its loop and its sign-extended bytes. |
| InStream.InStream.ReadRaw | data_stream.hh:1440-1457 | The copy and the loop both are the parse of the elements. |
| InStream.InStream.Read | data_stream.hh:1320-1336 | A value of any type is what the parse gives; a failed stream does not move. |
| InStream.InStream.OffsetValue | data_stream.hh:1352-1357 | The value at the position, and the cursor back where it was; or a failure. |
| OutStream.OutcomeThen | data_stream.hh:1948-2053 | Writing one thing after another is writing their bytes together, or failing as that would. |
| OutStream.OutStream.Seek | data_stream.hh:1590-1597 | Within the stub, or a failure; no byte changes. |
| OutStream.OutStream.Skip | data_stream.hh:1622-1630 | The same, and not before the beginning. |
| OutStream.OutStream.StubPush | data_stream.hh:1842-1845 | One stub more, modulo 2^64, in a good stream. |
| OutStream.OutStream.StubPop | data_stream.hh:1846-1854 | Takes the stub, checks, and goes on at its end if it aligns and at the cursor if not, or fails there: exactly when. |
| OutStream.OutStream.Ensure | data_stream.hh:2046-2053 | Room exactly for a good stream whose bytes end within the stub. |
| OutStream.OutStream.WritePod | data_stream.hh:1948-1955 | The bytes in the order of the data, on a host of any order, or a failure that keeps what was written. |
| OutStream.OutStream.WriteVarintByte | data_stream.hh:1956-1965 | One or two groups. |
| OutStream.OutStream.WriteVarintShort | data_stream.hh:1966-1981 | One to three groups. |
| OutStream.OutStream.WriteVarintWide | data_stream.hh:1982-2021 | All groups of a number of any width. |
| OutStream.OutStream.WriteRaw | data_stream.hh:2023-2038 | The copy and the loop both write the bytes of the elements. |
| OutStream.OutStream.WriteArray | data_stream.hh:1747-1756 | A zero, the elements, and the count over the zero: the array's bytes, cursor at their end. |
| OutStream.OutStream.Write | data_stream.hh:1747-1780 | A value of any type: exactly its bytes if they end within the stub, else a failure that keeps what was written before. |
| OutStream.OutStream.OffsetValue | data_stream.hh:1805-1810 | The value at the position and the state as it was; or a failure that keeps what lies before both. |
| OutStream.OutStream.Insert | data_stream.hh:1812-1829 | Before the cursor: the text with the value's network-order bytes in its middle, nothing before the beginning touched. |
| OutStream.OutStream.Finish | data_stream.hh:1887-1891 | A good stream's buffer ends where the writing ended. |
| StreamFormat.LongArray | data_stream.hh:1747-1756 | 256 one-byte elements behind a count of one byte read back as an empty array that ends behind the count. |
| StreamFormat.ArrayOverLimit | data_stream.hh:1320-1329 | An array over its limit is refused. |
| StreamRoundTrip.Transfer | data_stream.hh:1320-1457 | Packed on one host and unpacked on another, in either order: the value, all data used and a good end, exactly if every array fits. |
| AttrTable.StepKeepsInv | impl/attr_stats_impl.hh:62-75 | Every atomic step of every thread: claimed slots come first, no key twice, and every thread may rely on what it has seen. |
| AttrTable.RunKeepsInv | impl/attr_stats_impl.hh:30-75 | Every run keeps that, and no claimed key ever changes. |
| AttrTable.OneSlotPerAttribute | impl/attr_stats_impl.hh:62-75 | Everyone who ever asked for an attribute was sent to the same slot. |
| AttrTable.RefusedForGood | impl/attr_stats_impl.hh:62-75 | A search for a positive attribute fails only when every slot is someone else's, and then for ever. |
| AttrTable.IterationComplete | impl/attr_stats_impl.hh:53-58 | When an iteration stops nothing claimed lies behind. |
| AttrTable.IterationVisits | impl/attr_stats_impl.hh:53-58 | From its start to its end, whatever the others do: an iteration hands over every slot that was claimed when it started, once, in order and under its key. |
| AttrTable.IterationAlone | impl/attr_stats_impl.hh:53-58 | With nobody else about it hands over exactly the values of the claimed slots and leaves zeros. |
| AttrTable.RequestServed | impl/attr_stats_impl.hh:30-52 | From its start to its end, whatever the others do: a request is refused when every slot is someone else's, or is sent to its attribute's slot and moves its own amount, once. |
| AttrTable.OtherRequests | impl/attr_stats_impl.hh:36-64 | An attribute that is not positive is refused at once; a pass through a kept pointer adds its amount without a search. |
| AttrTable.RequestAlone | impl/attr_stats_impl.hh:30-75 | With nobody else about it changes exactly the first slot that is free or its attribute's: the name and the new value. |
| AttrTable.StepBalanced | impl/attr_stats_impl.hh:36-58 | Every step moves as much as it logs, modulo 2^64. |
| AttrTable.Conservation | impl/attr_stats_impl.hh:36-58 | So does every run. |
| AttrTable.Conserved | impl/attr_stats_impl.hh:36-58 | From the start, what was added and stored is what was delivered, overwritten and is still held, modulo 2^64. |
| AttrTable.WaitFree | impl/attr_stats_impl.hh:53-75 | A thread finishes within 3 steps a slot and 2 more of its own, whatever the others do. |
| ConsistentHash.HashInjective | consistent_hash.hh:167-172 | `u32Hash` sends different words to different words. |
| ConsistentHash.HashUnhash | consistent_hash.hh:167-172 | And reaches every word. |
| ConsistentHash.HashValueIndex | consistent_hash.hh:164-166 | What goes into the hash is the sum of key, last position and the index with its halves of sixteen bits swapped; no two indices below 2^32 give the same position. |
| ConsistentHash.ProbeReturns | consistent_hash.hh:149-156 | A probe chain that meets itself has come back to its start. |
| ConsistentHash.ProbesDistinct | consistent_hash.hh:149-156 | The first n probes are all different, or the chain is back at its start. |
| ConsistentHash.ProbeBound | consistent_hash.hh:149-156 | The search is hopeless exactly if the first \|ring\| + 1 probes all hit. |
| ConsistentHash.FreeStart | consistent_hash.hh:149-156 | A chain that starts from a free position finds one. |
| ConsistentHash.SetHangs | consistent_hash.hh:149-156 | A value and weights for which an empty ring searches for ever. |
| ConsistentHash.HitIsNearest | consistent_hash.hh:94-101 | The position looked up is the only one nearest clockwise, past the largest included. |
| ConsistentHash.MinimalDisruption | consistent_hash.hh:94-101 | Between a ring and one with more positions of a value, keys differ only if they go to that value, exactly if a new position is the nearest. |
| ConsistentHash.InsertedGrows | consistent_hash.hh:149-156 | A search that ends gives the value the weight asked for, in new positions of its own. |
| ConsistentHash.InsertedProbes | consistent_hash.hh:149-156 | The position with index i is the first probe, in the chain from the position before it, that is neither taken nor picked already. |
| ConsistentHash.RemovedShrinks | consistent_hash.hh:157-163 | The youngest positions go and the others stay. |
| ConsistentHash.RemovedInserted | consistent_hash.hh:149-163 | Removing what was inserted restores ring and node. |
| ConsistentHash.SetAgrees | consistent_hash.hh:107-121 | A call that returns keeps the tables in agreement, gives exactly the weight asked for and leaves the other values alone. |
| ConsistentHash.SetDisrupts | consistent_hash.hh:107-121 | Raising a weight changes only keys the value now gets, lowering it only keys it had. |
| ConsistentHash.RestoreExact | consistent_hash.hh:107-121 | Raising and then lowering a weight restores both tables exactly. |
| ConsistentHash.RingSize | consistent_hash.hh:107-121 | The ring is as large as all weights together. |
| ConsistentHash.RunAgrees | consistent_hash.hh:107-163 | After any run: the tables agree and every value has the weight its last call asked for. |
| ConsistentHash.Ring.Hash | consistent_hash.hh:94-101 | The value at the nearest position. |
| ConsistentHash.Ring.SetValue | consistent_hash.hh:107-121 | Returns exactly if no search is hopeless, and then with the tables so described. |
| ConsistentHash.Ring.InsertNode | consistent_hash.hh:149-156 | The loop takes the first free probe each time, or never ends. |
| ConsistentHash.Ring.RemoveNode | consistent_hash.hh:157-163 | The loop gives up the youngest positions. |
| Adler32.UpdateConcat | minilzo/minilzo.c:2392-2430 | The per-byte sums over a concatenation are those over its parts in turn. |
| Adler32.AdlerConcat | minilzo/minilzo.c:2392-2430 | So is the checksum. |
| Adler32.AdlerClosed | minilzo/minilzo.c:2392-2428 | The checksum in one formula: the low half is 1 + the sum of the bytes, the high half the length + the sum weighted from the length down to 1, modulo 65521 (section 8.2 of RFC 1950). |
| Adler32.ReduceLate | minilzo/minilzo.c:2424-2425 | Reducing once at the end is as good as reducing at every byte. |
| Adler32.RoomForChunk | minilzo/minilzo.c:2392-2393 | No sum of 5552 bytes leaves 32 bits, from any start. |
| Adler32.Do16 | minilzo/minilzo.c:2395-2399 | The sums over sixteen bytes, none of them wrapping. |
| Adler32.Chunk | minilzo/minilzo.c:2411-2423 | The unrolled loop and the rest are the plain sums. |
| Adler32.Checksum | minilzo/minilzo.c:2401-2428 | For every start, buffer and length: the checksum as defined byte by byte (section 2.2 and section 8.2 of RFC 1950); 1 for no buffer. |
| FreqControl.GeneratedExact | freq_control.hh:84-103 | Every whole token due, up to the size, and the exact remainder, if 63 bits hold them. |
| FreqControl.TokensFit | freq_control.hh:95-99 | The test for an overflowing sum is right. |
| FreqControl.GeneratedExactly | freq_control.hh:84-103 | Exactly when the tokens are right. |
| FreqControl.GeneratedWraps | freq_control.hh:90-90 | An input for which they are too few. |
| FreqControl.GeneratedOverfills | freq_control.hh:91-93 | An input for which they are too many. |
| FreqControl.GeneratedSplit | freq_control.hh:84-103 | One call or two leave the same tokens and the same remainder, cap or no cap. |
| FreqControl.GeneratedInSteps | freq_control.hh:84-103 | So do any number of calls whose times do not go back: the bucket is as the last of them alone would leave it. |
| FreqControl.RunAccounts | freq_control.hh:84-144 | Over any run without a wrap, whatever the time does: granted, left and lost to the cap are the starting tokens and those of the microseconds counted, which are no fewer than passed, and as many exactly if time never went back. |
| FreqControl.CountsOnce | freq_control.hh:84-144 | A run brings the micro-tokens of the time that passed exactly if no call goes by a time behind the bucket's own, and more otherwise. |
| FreqControl.Conservation | freq_control.hh:84-144 | Over any steady run: granted, left and lost to the cap are the starting tokens and those due, exactly. |
| FreqControl.RateLimit | freq_control.hh:84-144 | Without overdrawing no more is granted than the starting tokens and those of the microseconds counted; those are the ones due if time does not go back. |
| FreqControl.GrantedInFull | freq_control.hh:126-131 | Requests in a row are all granted exactly if the bucket holds their sum; what is granted is gone and nothing else changes. |
| FreqControl.OneByOne | freq_control.hh:126-131 | A bucket of n tokens grants n requests for one and refuses the next. |
| FreqControl.OverdraftsGranted | freq_control.hh:139-144 | Overdrafts in a row are all granted, whatever the bucket holds. |
| FreqControl.BackwardsCountsTwice | freq_control.hh:87-102 | A run in which time goes back and microseconds count twice. |
| FreqControl.FreqControl.Generate | freq_control.hh:84-103 | The fields after a call, with the wraps of 64-bit arithmetic. |
| FreqControl.FreshLimit | freq_control.hh:71-78 | A fresh bucket is empty and starts at the clock: it never grants more than its frequency brings from then on. |
| FreqControl.Rerated | freq_control.hh:71-78 | A running bucket keeps tokens, remainder and time: the next call brings the whole stretch since then, at the new frequency and under the new size. |
| FreqControl.InitBack | freq_control.hh:71-78 | Changing a running bucket and changing it back leaves nothing changed; through frequency 0 it loses its tokens. |
| FreqControl.FreqControl.Check | freq_control.hh:109-109 | True exactly if there are as many tokens. |
| FreqControl.FreqControl.Get | freq_control.hh:126-131 | Succeeds exactly if there are as many tokens as needed; exactly then they are taken, and nothing else changes. |
| FreqControl.FreqControl.Overdraw | freq_control.hh:139-144 | Refuses exactly if there is no frequency or the need is negative as a signed number; otherwise the tokens are taken in any case, and nothing else changes. |
| FreqCounter.IndexExact | freq_counter.hh:108-115 | The index is the interval exactly for the first 2^31 seconds. |
| FreqCounter.IntervalBounds | freq_counter.hh:108-115 | Interval i is the seconds from i times the granularity on, the granularity of them. |
| FreqCounter.IndexFallsBack | freq_counter.hh:109-111 | One second later it is 0. |
| FreqCounter.WindowNext | freq_counter.hh:99-101 | Clearing the next place moves the window by one interval. |
| FreqCounter.WindowFar | freq_counter.hh:102-103 | Clearing every place moves it any distance beyond. |
| FreqCounter.CompleteIntervals | freq_counter.hh:75-94 | What a frequency is taken over: exactly the intervals that are over, within the duration before the current one, and not the first. |
| FreqCounter.FreqCounter.Update | freq_counter.hh:95-107 | Every live interval has its exact count in its place, however far time jumps, and a clock that goes back changes nothing. |
| FreqCounter.FreqCounter.Occur | freq_counter.hh:47-50 | The events are counted in the interval of the latest clock seen. |
| FreqCounter.FreqCounter.SumTo | freq_counter.hh:75-94 | The sum, modulo 2^64, of exactly the intervals it claims to cover. |
| FreqCounter.FreqCounter.Frequency | freq_counter.hh:51-56 | That sum over the number of those intervals. |

## Left out

- Memory: allocation does not fail and objects in memory are smaller than 2^64 bytes; only positions and sizes
  a caller chooses are reduced modulo 2^64.
- OutStream.OutStream.Ensure: does not model a wrap of the position after the bytes of an object in memory; the
  formula of the source is the one of `StreamBase.Ensured`, which it equals below 2^64.
- GrowingBuffer.GrowingBuffer.Ensure: does not model a wrap of the new size; `ResizedExactly` says exactly when there
  would be one.
- GrowingBuffer.GrowingBuffer.Seek: the same, for a position so far out that the new size wraps.
- OutStream.OutStream.Seek: the same, and with it skips, aligned pops, insertions and offset values at such a position.
- InStream.InStream.ReadRaw: does not model an element count whose size in bytes wraps; the source has allocated the
  elements before.
- InStream.InStream.ReadVarintWide: drops the bits a varint has above its type's width, where the C++ shift is undefined.
- FreqCounter.FreqCounter.SumTo: says nothing for a duration of 0, where the window has no complete interval and the
  source divides by zero.
- FreqControl.Conservation: bucket sizes above the largest signed number, which the source turns negative, are left out.
- LzoDecompress.Decompress: streams of the compressor only; the branches for codes below 16 inside a block are proved
  unreachable on them. `lzo1x_decompress_safe` and malformed input are left out.
- LzoCompress.Compress: the break on a wrapping pointer keeps only its arithmetic half, `(t + ll) >> 5 == 0`.
- LzoCompress.DoCompress: wide loads and stores are slices of the buffer; alignment is not modelled.
- QlzDecompress.Core: packets of the compressor only; levels 1 and 2, streaming buffers and the memory-safe checks are
  left out.
- QlzCompress.Compress: a body of fewer than nine bytes is filled up with what the buffer held, as in the source, so that
  the packet of a very short text need not be the same twice; and pointers kept from an earlier call are positions
  that no counter vouches for.
- AttrTable.StepKeepsInv: atomic steps are sequentially consistent; weaker memory orders are left out.
- ConsistentHash.Ring.Hash: takes the key's 32-bit hash; the hash functors of `template.hh` are left out.
- OutStream.OutStream.Write: arrays go through a container with a back-patched count; pointers with a count written at once
  write the same bytes.
- Fixed output buffers, `std::wstring`, protocol buffer messages, `toString` and status resets of the streams.
- `CWideFreqControl` and `frequencyDouble`: floating point.
- Hash tables, files, event loops, logging, coroutines, character sets, encryption and the wrappers of other
  compressors.
