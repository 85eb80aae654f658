# darling-dmg: verified model of the reader stack

darling-dmg mounts OS X disk images. Every byte it shows comes through a stack of readers: the image file, a partition
made of compressed runs, the extents of a file's fork, the 64 KiB runs of a compressed file, and a block cache on two of
these levels. Each reader answers `read(buf, count, offset)` by a different mechanism. This project models those
mechanisms in Dafny and proves that each reader refines one flat sequence of bytes over any history of calls, that
stacks of them do, and that the searches in the on-disk B-trees behind them find exactly what they should.

`dafny verify dfyconfig.toml` checks the whole project.

## Layout

| file | part of the program |
|---|---|
| `Bytes.dfy` | bytes, outcomes, windows of a flat file, writes into a buffer |
| `Adc.dfy` | the ADC phrase format, its meaning, the restartable decoder |
| `AdcWindow.dfy` | what a sliding window keeps of a long ADC stream, and which requests it answers |
| `CacheZone.dfy` | the block cache: safety over all histories, agreement with the files, least-recently-used order |
| `BlockAdvice.dfy` | advised ranges, and when storing one keeps the cache in agreement with the file |
| `BTree.dfy` | descent, leaf chain, range search over decoded nodes |
| `ExtentsOverflow.dfy`, `ExtentMap.dfy` | overflow lookup; the flat file a list of extents stands for |
| `RunTable.dfy` | a partition's run table and the image it describes |
| `Inflate.dfy`, `ZlibRuns.dfy` | zlib as its callers see it; the layout of a compressed file |
| `Readers.dfy` | the reader classes, as objects with the fields the program keeps |
| `Stacks.dfy` | which readers a cache may sit on, nested views, sessions over many readers that share zones, a whole tower |
| `Catalog.dfy` | paths, listings and hard links over the catalog tree |

A `Reader` is a datatype with one case per class, so a read is dispatched by cases. Its `Contents` is the flat file it
stands for and never changes; `Wf` says how the parts of a stack fit; `Sound` collects the invariants of the objects
that reads change (cache zones, forks, inflating readers). A read requires and restores them and is `Delivered`: it
returns `min(count, length - offset)`, writes exactly those bytes of the flat file at its place in the buffer, and leaves
the rest of the buffer alone. The C++ methods that update fields or buffers are methods on classes and arrays here; what
they compute is stated by functions on values, about which the lemmas speak. Each of these functions is tied by at least
one lemma to the bytes, numbers and names of the formats themselves: `Adc.WholeIff`, `ZlibRuns.RunsShown`,
`RunTable.ImageByte`, `ExtentMap.ForkOfRecord`, `ExtentsOverflow.InOrderIff` and `LookupGrows`, `BTrees.FoundLeaves`,
`Readers.DeliveredIff`, `Catalog.FoldedName`, `ExactName`, `PathLeads`, `LinkFollowed` and `LeftOutOfListing`.

## Findings

Some properties one would expect do not hold of the code. The model keeps the code and states exactly when they hold.

- The slide in `DMGDecompressor_ADC::decompress` zeroes `offset` before subtracting it (`src/DMGDecompressor.cpp:270-271`).
  With `r = offset % 0x10000`, a request inside the stream is answered in full when `r == 0` or `r + count <= 0x20000`.
  Otherwise it is answered in full exactly when the window over its first lookback gets at least `r + count` bytes wide
  before it slides, which is never more than `0x20080`; if not, its last `r` bytes are never written although it reports
  success.
- `DMGDecompressor_LZFSE::decompress` drops the bytes before `offset` by decoding them (`src/DMGDecompressor.cpp:344-353`),
  but the first such call uses up the run's input and the next one finds none (`src/DMGDecompressor.cpp:84-85`). A read of
  an LZFSE run is answered if and only if it starts with the run; any other throws.
- `HFSZlibReader::read` does not shorten the first run's share by the position inside it (`src/HFSZlibReader.cpp:171`): a
  request that starts inside a run and leaves it fails; all others are answered in full, but for the next point.
- The stored branch of `HFSZlibReader::readRun` returns without setting `m_lastRun` (`src/HFSZlibReader.cpp:125-127`). A
  later read of the run whose number is still there can be taken for a read of a stored run, and then delivers
  compressed bytes. It happens exactly in the state that `Confused` describes, never when no run is stored, and never
  for reads at the start of a run, which are the ones a cache issues. `Readers.StaleRunExample` is a layout of five bytes
  where the second byte of the file reads as 0 instead of 7.
- `CacheZone::get` does not know how many bytes were stored (`src/CacheZone.cpp:51`). Storing an advised range keeps the
  cache in agreement with the file, whatever the unwritten tails hold, if and only if the range ends on a 4096-byte
  block, at the end of the file, or before the first block it stores (for a file new to a zone that holds at least one
  block).
- `CacheZone::store` of a cached key leaves its old node in the age list (`src/CacheZone.cpp:29-31`). The age list is exact
  throughout a history if and only if no store repeats a cached key; safety holds in either case.
- A listed name joined to its directory's path leads back to its record unless the path ends in two slashes (the walk
  then meets an empty element, which matches any single child) or is a hard link to another folder (a path is listed by
  the link's target but walked by the link itself).

## Assumptions

- Counts are not negative, and sizes and sums fit the program's integer types.
- The bottom reader holds its bytes and is never short inside its length.
- Bytes are the integers 0 to 255; masks and shifts are written as division and remainder.
- B-tree nodes, run tables, fork records and compression maps are decoded, in host byte order, before the model starts.
- One tag of a zone always names the same flat file.
- Bytes of a cache entry that were never written are arbitrary.
- The LZFSE decoder is a function from a buffer to what it decodes to, nothing when it cannot; whether it was built in is
  a parameter. `assert`s are compiled out.
- zlib and bzip2 are streaming codecs: more input only adds output, no stream is the beginning of another, the last byte
  of a stream adds no output (it ends the checksum; for zlib see section 2.2 of RFC 1950). A stored run is known by a
  first byte whose low nibble is 0xF, which no zlib stream has (same section).
- Catalog names are their UTF-8 forms; case folding is a function on them.

## Model

| member | source | states |
|---|---|---|
| `Adc.PrintOfNext` | src/adc.cpp:117-153 | a phrase as type, size and offset of its header say, written in the format of the comment, gives back the bytes it was read from |
| `Adc.ParsePrinted` | src/adc.cpp:13-17 | every list of phrases of the documented format, printed and followed by an incomplete phrase, parses back to that list |
| `Adc.PrintInjective` | src/adc.cpp:13-17 | two different phrase lists never print as the same bytes |
| `Adc.PhrasesMaximal` | src/adc.cpp:31-112 | the parse is a prefix of the input, and the rest starts with a phrase that is not all there |
| `Adc.PhrasesSplit` | src/adc.cpp:31-112 | more input leaves the phrases that were complete as they were and continues behind them |
| `Adc.CopyBackPeriodic` | src/adc.cpp:72-76 | a copy at distance d gives, at position i, byte i mod d of the last d bytes |
| `Adc.CopyBackRun` | src/adc.cpp:64-69 | at distance 1 the byte loop gives the run of one byte that memset writes |
| `Adc.CopyBackSuffix` | src/adc.cpp:72-76 | bytes no copy reaches may be dropped from the front of the output |
| `Adc.CopyLiteral` | src/adc.cpp:47-49 | appends the literal bytes and changes nothing behind them |
| `Adc.CopyPhrase` | src/adc.cpp:64-78 | either branch appends the overlapping copy and changes nothing behind it |
| `Adc.DecodePhrase` | src/adc.cpp:33-111 | one turn executes the next phrase, or stops with nothing changed exactly when it is not all there or does not fit; `ExpandedBytes` says what executing writes |
| `Adc.AdcDecompress` | src/adc.cpp:19-115 | consumes and writes what the recursive decoder does, whose bytes `DecodedBytes` gives; keeps what was before restartIndex and behind the end; empty input changes nothing, not even bytes_written |
| `Adc.DecodeMeaning` | src/adc.cpp:31-114 | that decoder executes exactly the longest prefix of the parsed phrases that fits the buffer |
| `Adc.ExpandedBytes` | src/adc.cpp:47-107 | byte i of what a phrase writes behind position k is data[i] for a store phrase, and byte k - (offset + 1) + i mod (offset + 1) of the output for short and long ones, which is there |
| `Adc.DecodedBytes` | src/adc.cpp:19-153 | in terms of input bytes: the phrases one call executes follow each other from the input's start and the output's old end; a header of 0x80 or more is followed by (header - 0x7F) bytes that are copied; the others say, by their bits, how many bytes repeat how many before them |
| `Adc.WholeIff` | src/adc.cpp:19-153 | what a stream decodes to is the only output that its bytes, read header by header without phrases, stand for |
| `Adc.StreamIff` | src/adc.cpp:19-153 | and the streams, which other rows assume, are exactly the byte strings that stand for some output |
| `Adc.SplitInvariance` | src/adc.cpp:19-115 | a run on the first part, then one on its leftover and the second part, is one run on both |
| `Adc.FeedIsDecode` | src/adc.cpp:19-115 | so it is for any list of buffers: total consumed and output are those of one run |
| `AdcWindow.Advance` | src/DMGDecompressor.cpp:255-260 | below two lookbacks a round on the next chunk always makes progress and leaves a window of the longer output |
| `AdcWindow.Slide` | src/DMGDecompressor.cpp:276-277 | sliding by 0x10000 keeps a lookback, so no later phrase reaches a byte that was dropped |
| `AdcWindow.WindowShows` | src/DMGDecompressor.cpp:262-264 | window bytes are bytes of the whole decode |
| `AdcWindow.AllDecoded` | src/DMGDecompressor.cpp:253-283 | the input is used up exactly when all bytes are decoded |
| `AdcWindow.AtStart` | src/DMGDecompressor.cpp:55-58 | a fresh decompressor with an empty window stands at the start of any stream |
| `AdcWindow.RoundAdvances` | src/DMGDecompressor.cpp:255-282 | a round that follows `processed` stands further on in the stream, and still does after a slide |
| `AdcWindow.WidthBounds` | src/DMGDecompressor.cpp:251-277 | the window over a lookback gets between two lookbacks and two lookbacks plus one phrase wide before it slides, when the stream goes on that far |
| `AdcWindow.NothingLost` | src/DMGDecompressor.cpp:262-275 | requests that start at a multiple of 0x10000 or end within two lookbacks succeed exactly inside the stream, and lose nothing |
| `AdcWindow.InsideIsAnswered` | src/DMGDecompressor.cpp:262-275 | every request inside the stream succeeds, with or without its tail |
| `AdcWindow.TailLost` | src/DMGDecompressor.cpp:266-275 | a request inside the stream that does not fit the buffer loses as many bytes as it starts behind a multiple of 0x10000 |
| `CacheZones.CacheZone.constructor` | src/CacheZone.cpp:6-9 | an empty zone, invariant established |
| `CacheZones.CacheZone.SetMaxBlocks` | src/CacheZone.cpp:11-15 | the new limit holds at once; invariant kept after any history |
| `CacheZones.CacheZone.EvictCache` | src/CacheZone.cpp:62-70 | drops from the old end until the limit holds; the list is never empty when popped, and it ends |
| `CacheZones.CacheZone.Store` | src/CacheZone.cpp:17-35 | a cached key keeps its data and gains a node; a new one gets the data with an arbitrary tail; then eviction |
| `CacheZones.CacheZone.Get` | src/CacheZone.cpp:37-60 | a miss changes nothing but the count; a hit copies min(4096 - offset, maxBytes) bytes and moves the live node to the young end |
| `CacheZones.DoStore` | src/CacheZone.cpp:17-35 | every cached key keeps a live node of its own and the size stays within the limit, repeated stores included |
| `CacheZones.StoreKeepsOld` | src/CacheZone.cpp:29-33 | storing a cached key keeps the old data, a new key gets the new data, and no other entry that is left has changed |
| `CacheZones.EraseKeeps` | src/CacheZone.cpp:54-56 | erasing one key's live node leaves every other key its own |
| `CacheZones.StoreAgrees` | src/CacheZone.cpp:17-35 | storing a block that agrees with its file keeps every cached block in agreement, eviction included |
| `CacheZones.GetAgrees` | src/CacheZone.cpp:37-60 | so does a lookup |
| `CacheZones.ExactLru` | src/CacheZone.cpp:17-70 | with stores of absent keys only, after any history the age list is the last maxBlocks distinct keys in order of last use, and those are the cached keys |
| `CacheZones.ByLastUseOrder` | src/CacheZone.cpp:17-70 | that order really is the order of last uses |
| `CacheZones.AlwaysExactIff` | src/CacheZone.cpp:29-31 | the age list lists the cached keys once each, throughout a history, if and only if no store repeats a cached key |
| `CacheZones.StoreTwiceInexact` | src/CacheZone.cpp:29-31 | storing a cached key leaves a list that is not exact |
| `CacheZones.RepeatedStoreEvictsYoung` | src/CacheZone.cpp:29-31 | a history of four stores after which the key used last but one is gone and an older one is kept |
| `BlockAdvice.DefaultAdviceIsGood` | src/Reader.cpp:4-13 | the default range contains the offset, starts at a multiple of 4096 and is 4096 bytes long or ends with the file |
| `BlockAdvice.StoreRunAgrees` | src/CachedReader.cpp:123-132 | storing an aligned range keeps the zone in agreement |
| `BlockAdvice.LastBlockStays` | src/CachedReader.cpp:126-132 | the last block of a range is in the cache afterwards, whatever was evicted |
| `BlockAdvice.StoringIsFaithfulIff` | src/CachedReader.cpp:123-132 | for a file with no node in the age list of a zone of at least one block: storing a range keeps agreement for every unwritten tail if and only if the range does not end inside a block it stores |
| `BTrees.BinarySearchIsScan` | src/HFSBTree.cpp:98-115 | on partitioned keys the halving search finds what a scan from the left finds |
| `BTrees.TraverseReaches` | src/HFSBTree.cpp:85-134 | descent ends in the last leaf whose first key is below the wanted key, or the first leaf; it ends because height falls |
| `BTrees.FindLeafNodes` | src/HFSBTree.cpp:48-83 | the result is a walk along forward links of at most nodes + 1 leaves even when links run in circles; in a well-formed tree it is the in-order range of leaves for the key |
| `BTrees.RangeComplete` | src/HFSBTree.cpp:48-83 | that range holds every leaf with a record that compares equal to the key |
| `BTrees.FoundLeaves` | src/HFSBTree.cpp:48-83 | and no others than these: a leaf is in it if and only if it is the first of the tree or does not start above the key, and the next leaf, if any, does not start below the key |
| `BTrees.FoundHasAll` | src/HFSBTree.cpp:48-83 | filtering the records of the range is filtering the records of the tree |
| `BTrees.ExactDescent` | src/HFSBTree.cpp:43-46 | exact descent ends in the only leaf that can hold the key, when keys are distinct |
| `BTrees.WellFormedIff` | src/HFSBTree.cpp:48-134 | a tree is well-formed for a comparator if and only if its leaves hang together and its records, read leaf by leaf, ascend |
| `ExtentsOverflow.CnidComparatorIsPreorder` | src/HFSExtentsOverflowBTree.cpp:61-79 | the comparator is negative, zero or positive exactly as (fork, file number) is less, equal or greater, fork first |
| `ExtentsOverflow.InOrderIff` | src/HFSExtentsOverflowBTree.cpp:61-79 | the trees the search is right on are those whose records ascend by these two numbers |
| `ExtentsOverflow.AppendExtents` | src/HFSExtentsOverflowBTree.cpp:46-56 | appends the descriptors before the first empty one |
| `ExtentsOverflow.ScanLeaf` | src/HFSExtentsOverflowBTree.cpp:25-57 | one leaf's matching records are appended, or the first match of all has the wrong block and it throws |
| `ExtentsOverflow.FindExtentsForFile` | src/HFSExtentsOverflowBTree.cpp:11-59 | on a tree whose records ascend by fork and file number: appends, in tree order, the non-empty descriptors of exactly the wanted records of the whole tree; throws exactly when the first of them does not start at the wanted block |
| `ExtentsOverflow.LookupGrows` | src/HFSExtentsOverflowBTree.cpp:22-58 | what that is, record by record: records of another fork (0xff or 0) or file or of an earlier block change nothing; the first other one has to start at the wanted block; it and all later ones add their descriptors up to an empty one |
| `ExtentsOverflow.ThreeFilesExample` | src/HFSExtentsOverflowBTree.cpp:11-79 | such a tree: three chained leaves under a root, and the extents found for the file in the last one |
| `ExtentMap.BytesOfExtent` | src/HFSFork.cpp:89-124 | bytes inside extent i are the volume's, behind those of the extents before it |
| `ExtentMap.BlockOfByte` | src/HFSFork.cpp:69-77 | the block test finds the extent that holds the byte |
| `ExtentMap.InUseAt` | src/HFSFork.cpp:13-18 | a descriptor with blocks stands in the list at the place that counts the descriptors with blocks before it, behind as many blocks as they have, and nothing else is in the list |
| `ExtentMap.InUsePrefix` | src/HFSFork.cpp:13-18 | when the empty descriptors come last the list is the others as they stand |
| `ExtentMap.ForkOfRecord` | src/HFSFork.cpp:10-41 | block b of the flat fork, with b in descriptor i behind the blocks of the earlier ones, is byte for byte the volume's block startBlock + (b - those blocks); when the record is not enough, the extents are its eight descriptors and then what the overflow lookup finds for the block where they end |
| `RunTable.LookupIsRight` | src/DMGPartition.cpp:68-81 | in a tiled table the map entry before the upper bound is the run that holds the sector, and the upper bound is that run's end |
| `RunTable.ImageUnique` | src/DMGPartition.cpp:62-148 | a tiled table describes one image only |
| `RunTable.ImageIsConcat` | src/DMGPartition.cpp:62-148 | for runs listed in order it is the concatenation of their bytes |
| `RunTable.ImageByte` | src/DMGPartition.cpp:101-144 | byte x of a run that is no comment or terminator stands at sectorStart * 512 + x of the image: 0 for a hole, the data's byte dataStart + compOffset + x for a raw run, and byte x of what the compLength bytes there decode to for the compressed kinds |
| `RunTable.AdvisedIsRun` | src/DMGPartition.cpp:41-53 | the range advised for a byte of a compressed run is exactly the bytes of that run |
| `ZlibRuns.RunAdviceIsGood` | src/HFSZlibReader.cpp:53-57 | a whole run is advised: it contains the offset, starts at a multiple of 65536, and is 65536 bytes long or ends with the file |
| `ZlibRuns.BytesOfRun` | src/HFSZlibReader.cpp:161-178 | bytes of run k are the bytes of the decoded file from k * 65536 on |
| `ZlibRuns.RunsShown` | src/HFSZlibReader.cpp:109-141 | the piece of the decoded file from k * 65536 on is what the codec decodes run k's bytes to when their first is 16 * h + n with n below 15, and the bytes behind the first when it is 16 * h + 15 |
| `ZlibRuns.DecodedUnique` | src/HFSZlibReader.cpp:154-181 | a compression map describes one decoded file only |
| `Inflater.Inflate` | src/HFSZlibReader.cpp:130-144 | hands out the next bytes of the stream and stops only when input is used up, room is filled or the stream ends |
| `Readers.Length` | src/CachedReader.cpp:155-158 | every reader's length is that of its flat file |
| `Readers.ReadFrom` | src/Reader.h:9 | any well-formed stack delivers the window of its flat file for every read it serves, whatever was read before |
| `Readers.DeliveredIff` | src/Reader.h:9 | byte for byte: min(count, length - offset) bytes are returned and are the file's from the offset on; every other byte of the buffer is as it was |
| `Readers.AdviseOptimalBlock` | src/Reader.h:12-14 | the advised range is the one the specification names, for every stack |
| `Readers.ReadMemory` | src/MemoryReader.cpp:9-18 | delivers the window of the data it holds |
| `Readers.ReadSub` | src/SubReader.cpp:8-16 | delivers the window of its slice of the parent |
| `Readers.AdviseSub` | src/SubReader.cpp:23-34 | the parent's range, moved and cut to the view |
| `Readers.CachedReader.constructor` | src/CachedReader.cpp:10-13 | a cache over any cacheable reader is a well-formed stack |
| `Readers.CachedReader.Read` | src/CachedReader.cpp:15-83 | delivers the window of the backing file for any zone contents and any capacity, 0 included; offset may lie behind the end |
| `Readers.CachedReader.GetPiece` | src/CachedReader.cpp:42-60 | a hit puts the file's bytes of this piece in place; a miss writes nothing |
| `Readers.CachedReader.FetchGap` | src/CachedReader.cpp:47-55 | the deferred fetch fills the gap up to the piece in place |
| `Readers.CachedReader.NonCachedRead` | src/CachedReader.cpp:85-153 | delivers the file's bytes; none of its three errors is raised, and each round gets on |
| `Readers.CachedReader.FetchAndStore` | src/CachedReader.cpp:118-132 | reads the advised range in full and stores it without breaking the zone's agreement |
| `Readers.CachedReader.StoreBlocks` | src/CachedReader.cpp:123-132 | the storing loop keeps the zone's invariant |
| `Readers.HFSFork.constructor` | src/HFSFork.cpp:10-19 | keeps the descriptors in use, and stands for a file that shows each descriptor's blocks of the volume behind those of the descriptors before it |
| `Readers.HFSFork.LoadFromOverflowsFile` | src/HFSFork.cpp:26-41 | throws without a number or with fewer than eight extents; else, on a tree whose records ascend by fork and file number, appends what the tree has, or throws with the list unchanged when the search does or finds nothing |
| `Readers.HFSFork.MustLoad` | src/HFSFork.cpp:82-96 | running out of loaded extents before the end of the file means the eight inline ones are loaded and the rest is in the tree |
| `Readers.HFSFork.ScanExtents` | src/HFSFork.cpp:67-77 | blocksSoFar is always the sum of the extents passed, and the scan stops at the extent that holds the offset |
| `Readers.HFSFork.LocateExtent` | src/HFSFork.cpp:60-85 | finds that extent and the position in it, loading the overflow extents when needed |
| `Readers.HFSFork.PieceOfFork` | src/HFSFork.cpp:98-110 | the flat file's bytes there are the volume's bytes that are read |
| `Readers.HFSFork.ReadExtent` | src/HFSFork.cpp:107-112 | the volume read puts the piece of one extent in place |
| `Readers.HFSFork.Read` | src/HFSFork.cpp:43-129 | delivers the window of the flat fork whether or not earlier reads loaded the overflow extents; thistime is never 0 |
| `Readers.HFSZlibReader.constructor` | src/HFSZlibReader.cpp:11-46 | a fresh reader stands for the decoded file |
| `Readers.HFSZlibReader.Restart` | src/HFSZlibReader.cpp:76-83 | the state is that of a fresh stream, the last run's number apart |
| `Readers.HFSZlibReader.ReadRun` | src/HFSZlibReader.cpp:73-151 | continuing, skipping or restarting, delivers the run's bytes from the offset, or its raw bytes exactly when it is stored or taken for stored; says what state is left |
| `Readers.HFSZlibReader.Deliver` | src/HFSZlibReader.cpp:97-151 | the decompression loop delivers from m_lastEnd on, ends, and keeps the stream, m_lastEnd and m_inputPos together |
| `Readers.HFSZlibReader.FetchInput` | src/HFSZlibReader.cpp:109-113 | the next compressed bytes; its first byte tells stored runs from streams, by its low four bits (`ZlibRuns.RunsShown`) |
| `Readers.HFSZlibReader.InflateInto` | src/HFSZlibReader.cpp:130-141 | one inflate call puts the next bytes of the run in place |
| `Readers.HFSZlibReader.ReadStored` | src/HFSZlibReader.cpp:115-128 | delivers the bytes behind the marker and leaves m_lastRun as it was |
| `Readers.HFSZlibReader.Read` | src/HFSZlibReader.cpp:154-181 | delivers the window of the decoded file exactly when the request starts at a run or stays in one, and throws otherwise; when its first run is mistaken for a stored one, delivers that run's raw bytes, or throws when they end too early |
| `Readers.HFSZlibReader.AnsweredIff` | src/HFSZlibReader.cpp:158-175 | a request that is not mistaken is answered, with the decoded file, if and only if it starts behind the file or at a multiple of 65536, or ends before the next one |
| `Readers.HFSZlibReader.ReadShare` | src/HFSZlibReader.cpp:163-177 | a run's share is delivered in full exactly when the request is answered |
| `Readers.HFSZlibReader.RunOfRequest` | src/HFSZlibReader.cpp:163-172 | the share of a request that is not mistaken is a piece of the decoded file, all of it exactly when the request does not leave its first run in the middle |
| `Readers.HFSZlibReader.RunMistaken` | src/HFSZlibReader.cpp:115-128 | the only share of a mistaken request is raw bytes, all of it exactly when they reach far enough |
| `Readers.NeverConfused` | src/HFSZlibReader.cpp:115-128 | without stored runs no read is taken for one |
| `Readers.StaleRun` | src/HFSZlibReader.cpp:125-127 | three reads after which the third delivers compressed bytes of a compressed run |
| `Readers.StaleRunExample` | src/HFSZlibReader.cpp:125-127 | a file of two runs whose second byte, 7, reads as 0 |
| `Readers.DMGDecompressor.ReadSome` | src/DMGDecompressor.cpp:79-88 | the next chunk of input, or an error at its end |
| `Readers.DMGDecompressor.DecodeSome` | src/DMGDecompressor.cpp:255-260 | a round inside the stream always consumes something, so the zero-progress error is never raised, and leaves the next window of the stream |
| `Readers.DMGDecompressor.CopyFromWindow` | src/DMGDecompressor.cpp:262-269 | the bytes copied are the next bytes of the whole decode |
| `Readers.DMGDecompressor.SlideOn` | src/DMGDecompressor.cpp:266-277 | a full window is copied out as far as one lookback and slides, with the count short by what lay before the request |
| `Readers.DMGDecompressor.SlideWindow` | src/DMGDecompressor.cpp:276-277 | the window's bytes from one lookback on move to its front |
| `Readers.DMGDecompressor.CopyOut` | src/DMGDecompressor.cpp:262-282 | after a round the request is finished, with exactly the bytes lost that the specification says, or has come one window further |
| `Readers.DMGDecompressor.UsedUp` | src/DMGDecompressor.cpp:255 | when the input is used up with the request unfinished, the request is not one that is answered |
| `Readers.DMGDecompressor.DecompressAdc` | src/DMGDecompressor.cpp:239-285 | ends; succeeds exactly for the requests that are answered, with all their bytes but the lost ones written and nothing else; throws for all others, and for a negative offset |
| `Readers.DMGDecompressor.Gather` | src/DMGDecompressor.cpp:297-321 | the whole input, in one chunk or many, is gathered, or there is none left |
| `Readers.DMGDecompressor.DecodeLzfse` | src/DMGDecompressor.cpp:289-334 | decodes from the run's first byte and uses the input up; throws when it is used up already or decodes to nothing |
| `Readers.DMGDecompressor.DecompressLzfse` | src/DMGDecompressor.cpp:336-355 | answers a request from the start of the run, and throws, with nothing written, for every positive offset |
| `Readers.StreamDecompressor.constructor` | src/DMGDecompressor.cpp:99-105 | a fresh stream with no input before it |
| `Readers.StreamDecompressor.Refill` | src/DMGDecompressor.cpp:126-134 | there is input unless the stream has ended; then it throws |
| `Readers.StreamDecompressor.InflateNext` | src/DMGDecompressor.cpp:136-141 | one call hands out the next bytes of the stream and keeps consumed and pending input together |
| `Readers.StreamDecompressor.DecompressNext` | src/DMGDecompressor.cpp:112-146 | delivers the next bytes up to the stream's end, reporting their number (zlib) or the number asked for (bzip2); behind the end it throws |
| `Readers.StreamDecompressor.Skip` | src/DMGDecompressor.cpp:156-164 | dropping 4096 bytes at a time stops at the offset when that lies inside the decode |
| `Readers.StreamDecompressor.Decompress` | src/DMGDecompressor.cpp:148-167 | delivers the bytes of the decode from the offset on, across refills of 8 KiB, and writes nothing when the offset lies behind it |
| `Readers.DMGPartition.constructor` | src/DMGPartition.cpp:15-32 | the sector map of a tiled table, later runs winning |
| `Readers.DMGPartition.Lookup` | src/DMGPartition.cpp:68-81 | the run the map finds holds the byte |
| `Readers.DMGPartition.AdviseOptimalBlock` | src/DMGPartition.cpp:39-60 | the whole run for compressed runs, the default block for the others; the error is never raised |
| `Readers.DMGPartition.Read` | src/DMGPartition.cpp:62-94 | throws exactly when it starts inside an LZFSE run; else delivers the window of the image across any number of runs, but for the bytes an ADC run it starts in loses; position 0 in every run after the first is right |
| `Readers.DMGPartition.ServedShowsImage` | src/DMGPartition.cpp:62-94 | a served read neither throws nor loses bytes |
| `Readers.DMGPartition.FailsIff` | src/DMGPartition.cpp:117-143 | a read of at least one byte throws if and only if it starts inside an LZFSE run, behind its first byte |
| `Readers.DMGPartition.ShownDiffers` | src/DMGPartition.cpp:83-90 | every byte of a read that does not throw is the image's but the last (inside mod 0x10000) of its share of an ADC run that starts inside and ends more than 0x20000 behind the multiple of 0x10000 before |
| `Readers.DMGPartition.PartShown` | src/DMGPartition.cpp:83-90 | what the read of one run writes is the image there, but for the bytes lost |
| `Readers.DMGPartition.ReadRun` | src/DMGPartition.cpp:96-148 | delivers the run's bytes, by type, up to the end of the run; throws for an LZFSE run at a positive offset, and leaves the lost bytes of an ADC run unwritten |
| `Readers.DMGPartition.Decompress` | src/DMGPartition.cpp:121-144 | a fresh decompressor of the run's kind over its bytes does the same |
| `RunTable.ServedLosesNothing` | src/DMGPartition.cpp:121-144 | the guard for reads of a run is enough: no bytes are lost |
| `Stacks.AdviceContract` | src/CachedReader.cpp:100-106 | every well-formed stack, with any depth of views, advises a range that contains the offset and stays in the file |
| `Stacks.DefaultIsCacheable` | src/Reader.cpp:4-13 | readers with the default advice may be cached and answer every read |
| `Stacks.ZlibIsCacheable` | src/HFSZlibReader.cpp:53-57 | a compressed file may always be cached, stored and compressed runs mixed |
| `Stacks.PartitionCacheableIff` | src/DMGPartition.cpp:39-60 | a partition may be cached if and only if its compressed runs end on cache blocks, with the image or before the first block they store, and fit one read |
| `Stacks.BlockServed` | src/DMGPartition.cpp:55-59 | the default block of a byte in an uncompressed run never starts inside a compressed one that ends where a cache needs it to |
| `Stacks.PartitionRandomAccessIff` | src/DMGPartition.cpp:96-148 | every read is answered in full, neither throwing nor losing bytes, if and only if there is no LZFSE run and no ADC run longer than two lookbacks |
| `Stacks.SubCacheableIff` | src/SubReader.cpp:23-34 | a view of a reader that advises by default may be cached if and only if it starts on a block of its parent or lies inside one |
| `Stacks.ViewAdvice` | src/SubReader.cpp:23-34 | a view advises exactly those of its bytes that its parent advises |
| `Stacks.NestedViews` | src/SubReader.cpp:8-16 | byte i of a view is byte start + i of its parent, and a view of a view is a view |
| `Stacks.ReadOne` | src/CachedReader.cpp:15-83 | one served read of any stack yields the window of its flat file and keeps everything shared sound |
| `Stacks.Session` | src/CachedReader.cpp:15-153 | over any sequence of served reads by any number of readers sharing zones, forks and decompressors, every read yields the window of its reader's flat file |
| `Stacks.OpenPartition` | src/DMGDisk.cpp:235-255 | the stack built for a partition stands for its image and answers every read |
| `Stacks.OpenResource` | src/HFSHighLevelVolume.cpp:158-162 | the stack built for a resource stands for its piece of the fork's bytes |
| `Stacks.OpenCompressedFile` | src/HFSHighLevelVolume.cpp:150-176 | the stack built for a compressed file stands for the decoded file and answers every read |
| `Catalog.IdOnlyComparatorIsPreorder` | src/HFSCatalogBTree.cpp:107-120 | the comparator is negative, zero or positive exactly as the directory's number is less, equal or greater |
| `Catalog.ByDirectoryIff` | src/HFSCatalogBTree.cpp:107-120 | the trees the search is right on are those whose records ascend by that number |
| `Catalog.ReplaceChars` | src/HFSCatalogBTree.cpp:425-434 | replaces every occurrence and nothing else |
| `Catalog.ShownStored` | src/HFSCatalogBTree.cpp:163-164 | storing a shown name gives the name back if and only if it has no colon |
| `Catalog.StoredShown` | src/HFSCatalogBTree.cpp:218-219 | showing a stored path element gives the element back |
| `Catalog.SplitPath` | src/HFSCatalogBTree.cpp:171-178 | appends the lines of the string, without an empty last one |
| `Catalog.JoinElements` | src/HFSCatalogBTree.cpp:208-219 | joining a name to a path adds one element to walk, or an empty one and then it, exactly when the path ends in two slashes |
| `Catalog.HFSCatalogBTree.Open` | src/HFSCatalogBTree.cpp:13-20 | finds the directory of hard link targets, or 0 |
| `Catalog.HFSCatalogBTree.AppendFromLeaf` | src/HFSCatalogBTree.cpp:275-325 | one leaf's matching files and folders enter the map, later ones of a name winning; which match is what `FoldedName`, `ExactName` and `EmptyName` say |
| `Catalog.HFSCatalogBTree.CollectMatching` | src/HFSCatalogBTree.cpp:139-148 | on a tree whose records ascend by directory: the map of a directory's matching records is that of the whole tree's records |
| `Catalog.HFSCatalogBTree.FindChild` | src/HFSCatalogBTree.cpp:180-198 | on a tree whose records ascend by directory: the only match, none, or an error when several names match |
| `Catalog.HFSCatalogBTree.Stat` | src/HFSCatalogBTree.cpp:200-267 | on such a tree: walks the path element by element from the root's parent (`PathLeads`), then follows a hard link (`LinkFollowed`) |
| `Catalog.HFSCatalogBTree.ListDirectory` | src/HFSCatalogBTree.cpp:122-169 | no entry, no directory, or the directory's records under their shown names without the hidden ones; of names shown alike the one that comes last gives the entry |
| `Catalog.ListingUnique` | src/HFSCatalogBTree.cpp:150-167 | which fixes the listing: a directory has one |
| `Catalog.ChildrenAreRecords` | src/HFSCatalogBTree.cpp:270-325 | the map of a directory's children is its records, each name once |
| `Catalog.ChildFound` | src/HFSCatalogBTree.cpp:180-198 | a name the volume takes for a record's finds that record |
| `Catalog.FoldedName` | src/HFSCatalogBTree.cpp:180-198 | on a case-insensitive volume a name finds the record of the directory whose folded name is the folded one wanted, when it is the only one; nothing when there is none; an error when two of different names fold to it |
| `Catalog.ExactName` | src/HFSCatalogBTree.cpp:301-308 | on a case-sensitive volume it finds the record of that very name, whatever folding does, nothing when no file or folder of the directory has it, and never an error |
| `Catalog.EmptyName` | src/HFSCatalogBTree.cpp:301-308 | an empty name finds the only file or folder of the directory, nothing in an empty one, and is an error when there are two names |
| `Catalog.RootIsChild` | src/HFSCatalogBTree.cpp:208-221 | the empty path and a lone slash lead to what the directory number 1 has under the empty name: its only record (`EmptyName`) |
| `Catalog.OuterSlashes` | src/HFSCatalogBTree.cpp:208-211 | one slash before a path and one behind it do not matter |
| `Catalog.SlashName` | src/HFSCatalogBTree.cpp:213-228 | behind a slash a path names what the directory before it has under that name, with a slash for each colon |
| `Catalog.PathLeads` | src/HFSCatalogBTree.cpp:213-253 | for paths of any length: whatever can be reached from the root folder, name by name, is found by the path of these names |
| `Catalog.ListingIsDirectory` | src/HFSCatalogBTree.cpp:150-167 | a listing shows every record that is not hidden, distinct ones under distinct names, and nothing else |
| `Catalog.LeftOutOfListing` | src/HFSCatalogBTree.cpp:154-166 | outside folder 2 every record of the directory is listed, with a colon for each slash; in folder 2 exactly those whose names do not start with a null character and are none of three private ones |
| `Catalog.ColonWins` | src/HFSCatalogBTree.cpp:150-166 | of records whose names are shown alike, the listing has the one with a colon where another first differs from it |
| `Catalog.ListingResolvesIff` | src/HFSCatalogBTree.cpp:122-267 | every listed name joined to the path leads back to its record if and only if the path does not end in two slashes |
| `Catalog.TwoSlashesExample` | src/HFSCatalogBTree.cpp:208-214 | a volume of one file that `//` lists and `//f` does not find |
| `Catalog.LinkedListingResolvesIff` | src/HFSCatalogBTree.cpp:254-262 | for a path that is a hard link they do if and only if it is the same folder |
| `Catalog.LinkFollowed` | src/HFSCatalogBTree.cpp:254-262 | an entry is followed if and only if its file type is 0x686C6E6B and the volume has a directory of link targets: to what that has under "iNode" and the number, if anything |
| `Catalog.DecimalRoundTrip` | src/HFSCatalogBTree.cpp:257 | a link's number is written in decimal digits, without leading zeros, and reads back as itself |
| `Catalog.LinkLeadsToTarget` | src/HFSCatalogBTree.cpp:254-262 | a hard link leads to the record of its number in the directory of link targets |
| `Catalog.PrivateDataIsHidden` | src/HFSCatalogBTree.cpp:153-166 | that directory is found by lookup and missing from the listing of the root folder |
| `Catalog.FoundIsListed` | src/HFSCatalogBTree.cpp:122-267 | whatever a lookup finds in a directory is a record of it, of a name the volume takes for the one asked for, and that record is hidden or listed |

## Left out

- FUSE and hdiutil entry points, FileReader's system calls, logging.
- The inside of zlib, bzip2 and LZFSE, and what their wrappers do with data they cannot decode.
- Property lists, base64 and partition discovery in DMGDisk; AppleDisk, GPTDisk, MacBinary.
- Reading the compression map and the resource fork's own index: the model starts from their decoded entries.
- Byte order, packed structures, 16- and 32-bit truncation, signed overflow.
- ICU conversion; the two comparators on names, which no lookup uses; time conversion, attributes, symbolic links.
- The build with NO_CACHE, dumpTree and the disabled walkTree.
- Readers.DMGDecompressor.DecompressAdc: what a request that throws has written to the output before is not stated.
- Readers.StreamDecompressor.Decompress: which error or negative status a request behind the decode, or for no bytes,
  ends with is not stated.
- Readers.HFSZlibReader.ReadRun: the offset must not lie behind the run's bytes, where the skipping loop would not end;
  how often a skip decodes the same bytes is not counted.
- Readers.HFSZlibReader.Read: of reads whose first run is mistaken for a stored one, those that leave the run and find more
  raw bytes than it has are required away, and those that start behind the raw bytes, where the code does not end.
- Readers.DMGPartition.ReadRun: runs of a type the program does not know, and runs whose data is short, are not
  modelled; the second clipping of count (lines 134-138) repeats the first and is left away.
- BTrees.FindLeafNodes: on a tree that is not well-formed only the walk and its length are stated; trees whose index
  nodes are empty or do not get lower on the way down, where the descent need not end, are excluded.
- Readers.HFSFork.LoadFromOverflowsFile: what a search of a tree whose records do not ascend by fork and file number
  appends is not stated.
- Catalog.HFSCatalogBTree.Open: an exception of the constructor is a result here.
