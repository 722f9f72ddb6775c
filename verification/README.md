# MicroK kernel: models and proofs

MicroK is a bare-metal x86 kernel. This project models the parts of it whose correctness is a matter of
whole runs, data layouts and index arithmetic, and proves what they are for. Disk, memory, network card and peer are
explicit state; transfers succeed unless a property says otherwise. `dafny verify dfyconfig.toml` checks everything.

| files | what they model |
|---|---|
| `Bytes`, `BlockData` | byte strings, little-endian words, bytes scattered over equal blocks |
| `Ata` | batched block I/O with read-modify-write over a flat medium |
| `FatTable`, `FatVolume`, `Fat32`, `FatLoad`, `FatDelete`, `FatSystem` | FAT32 chains on a device image: read, write with growth, burst load, delete, and what they keep of all the other files |
| `Checksum`, `TcpSegment`, `Tcp` | the Internet checksum, TCP frames, and the single-connection TCP client |
| `RxRing` | the e1000 receive ring as a two-party step system |
| `Utf8`, `Bpe`, `Tokenizer` | UTF-8 text, BPE encoding over sequences, and the array-embedded linked list that implements it |
| `Gguf`, `GgufFile`, `GgufExact`, `GgufLookup`, `GgufProbe`, `TensorSize` | a GGUF writer, the parser, which files it accepts, its lookups and its cache, tensor sizes |
| `Bitmap`, `Pmm`, `HighPool` | the page allocators below and above 4 GiB |
| `HighMem`, `GgufData` | buffers of scattered high pages, and model data moved into one |
| `Kheap`, `KheapList` | the first-fit heap as a sequence of blocks and as a chain of headers |
| `Extfs` | the ext2 block map and file loading |
| `Iwl` | the Wi-Fi transmit ring and completion indices |
| `Task` | round-robin scheduling |
| `Half`, `Quant`, `Quant6` | 16-bit float decoding; Q4_0 and Q6_K dequantisers and fused dot products over exact reals |

Each imperative function is a method proved equal to a function of its input or old state, and the promises
are proved about those functions for every input, every run or every reachable state. Sizes and addresses that the C
code keeps in 32 or 64 bits are unbounded integers with the wrap written out, or with the bound that excludes it stated
as a precondition.

Promises the code does not keep everywhere are stated with their exact limit:

- Table entries past the end of the device look free to FAT32 growth; `FatSystem.KeptIffRoomOnDevice` says exactly when
  the bytes of a write are really on the disk, and `FatSystem.LostBeyondDevice` is a volume and a write that is not.
- The receive buffer of `net_http_get` is installed after the request is sent, so bytes can be acknowledged and lost
  before; `Tcp.EarlyBytesLost` shows it, and `Tcp.Client.HttpGet` says from which position on the stream is returned
  and when that makes it a prefix.
- A TCP segment that overlaps the first missing byte is dropped; `Tcp.AcceptedIff` is the exact rule.
- Checksums over two regions need an even first region; `Checksum.OddPartsFail`.
- A stale Wi-Fi completion is ignored except in the last 256 indices before the counter wraps;
  `Iwl.StaleIgnoredIff` and `Iwl.StaleAccepted`.
- Page numbers and addresses of the high pool correspond exactly if no two recorded regions overlap;
  `HighPool.BijectionIffApart`. On the same condition, and no other, every failed allocation restores the pool
  (`HighMem.RestoresIffApart`) and every buffer has different pages (`HighMem.DistinctIffApart`), which is what it takes
  to hold every source (`HighMem.HoldsAllIffDistinct`). `HighMem.FailureLeaks` and `HighMem.CopyGarbled` show a
  pool where both fail.
- The start of the data in a GGUF file wraps to 0 if the tables end in the last 31 bytes of 32 bits; otherwise the files
  accepted are exactly those that can be written, `GgufExact.AcceptedIffWritten`.
- The checks of a GGUF tensor against the file wrap; `GgufLookup.AcceptedInFileIff` says which tensors handed out lie in
  the file, `GgufLookup.WrappedAccepted` is a file with two that do not.
- Killing the last live task leaves it running, without its stack page unless it is task 0; `Task.KilledOutcome`
  and `Task.LastTaskKilled`.

## Model

| member | source | states |
|---|---|---|
| `Ata.Drive.ReadSectors` | kernel/ata.c:79-97 | a command of up to 255 sectors delivers exactly those sectors of the medium |
| `Ata.Drive.WriteSectors` | kernel/ata.c:99-122 | a command of up to 255 sectors replaces exactly those sectors |
| `Ata.Drive.ReadPiece` | kernel/ata.c:143-165 | one pass of the read loop, batch or single sector, delivers the next bytes of the medium |
| `Ata.Drive.WritePiece` | kernel/ata.c:180-198 | one pass of the write loop overwrites exactly the next bytes; the single-sector case keeps the rest of the sector |
| `Ata.Drive.BlockRead` | kernel/ata.c:132-167 | for every offset and size within 2^32 the bytes of the range that lie on the device are returned |
| `Ata.Drive.BlockWrite` | kernel/ata.c:169-203 | the returned count is the part of the range on the device, and exactly those bytes change |
| `Ata.ClipStored` | kernel/ata.c:132-203 | a read of a range after a write to it returns the bytes written |
| `Ata.ClipElsewhere` | kernel/ata.c:132-203 | a read of any range apart from a write is not affected by it |
| `FatTable.Relink` | kernel/fat32.c:128-142 | rewriting an entry replaces its 28 link bits and keeps the reserved top four |
| `FatTable.Put` | kernel/fat32.c:128-142 | storing a link changes one entry only and keeps its reserved bits |
| `FatTable.ChainAcyclic` | kernel/fat32.c:110-122 | a chain that ends cannot visit a cluster twice |
| `FatTable.ChainUnique` | kernel/fat32.c:110-122 | a chain is determined by its first cluster |
| `FatTable.ChainBounded` | kernel/fat32.c:110-122 | a chain has at least two clusters fewer than the table has entries |
| `FatTable.FirstFreeIs` | kernel/fat32.c:148-165 | the sector-by-sector search returns the lowest free entry |
| `FatTable.LinkExtends` | kernel/fat32.c:247-256 | linking a free cluster behind the last one extends the chain by it, ended by 0x0FFFFFFF, and changes no other entry |
| `FatTable.ChainKept` | kernel/fat32.c:128-142 | a chain none of whose entries changed is still a chain |
| `FatTable.OtherFileKept` | kernel/fat32.c:212-261 | growing one file leaves every disjoint file a chain and disjoint from the grown one |
| `FatTable.LowestFirst` | kernel/fat32.c:148-165 | growth uses up the free entries below any bound before it passes the bound |
| `FatTable.NthBelow` | kernel/fat32.c:148-165 | a cluster taken as n-th lies below d if and only if more than n free entries do: clusters are taken in order of their numbers |
| `FatVolume.EntryInSector` | kernel/fat32.c:110-122 | entry c is the word at 4c mod 512 of table sector 4c div 512 |
| `FatVolume.EntryRewritten` | kernel/fat32.c:128-142 | the read-modify-write of one table sector changes that entry of the table and no cluster |
| `FatVolume.Volume.GetNext` | kernel/fat32.c:110-122 | the link of a cluster as stored in the table on the device |
| `FatVolume.Volume.SetCluster` | kernel/fat32.c:128-142 | on the device image: the table changes in one entry, every cluster keeps its bytes |
| `FatVolume.Volume.ScanSector` | kernel/fat32.c:151-162 | first free entry of one table sector, never entry 0 or 1 |
| `FatVolume.Volume.FindFree` | kernel/fat32.c:148-165 | the lowest free entry, or the table size if there is none |
| `FatVolume.Volume.ByteAddress` | kernel/fat32.c:103-105 | clusters start where the layout says, and end within 32 bits |
| `FatVolume.Volume.ReadCluster` | kernel/fat32.c:193-194 | the bytes of the cluster on the device, followed by the old end of the buffer where the device ends first |
| `FatVolume.Volume.WriteCluster` | kernel/fat32.c:233-242 | the cluster changes as far as the device goes; the table and every other cluster do not |
| `Fat32.Skip` | kernel/fat32.c:179-186 | following k links succeeds exactly if the chain has more than k clusters, and arrives at cluster k |
| `Fat32.Read` | kernel/fat32.c:172-206 | for every chain as many bytes as the request and the chain allow; each is the byte of the chain wherever the device has it, so for a file on the device the result is the window asked for of the concatenated chain data |
| `Fat32.ReadChain` | kernel/fat32.c:188-205 | the same for the transfer loop, from any cluster and offset on |
| `Fat32.StorePart` | kernel/fat32.c:233-242 | part of one cluster is overwritten in place |
| `Fat32.Grow` | kernel/fat32.c:249-256 | the lowest free cluster is linked behind the last one, or nothing changes if the table is full |
| `Fat32.WriteStep` | kernel/fat32.c:232-258 | one pass stores a piece, follows the link and grows the file, keeping everything known of the write so far |
| `Fat32.WriteChain` | kernel/fat32.c:228-260 | the whole loop: chain extended by formerly free clusters, bytes stored, short count only on a full table |
| `Fat32.Write` | kernel/fat32.c:212-261 | nothing happens past the last cluster or without memory; otherwise the new chain is the old one plus formerly free clusters in order of their numbers, no other cluster changes, and every byte of the chain the device has is the old one or the one written there |
| `FatLoad.FindBurst` | kernel/fat32.c:930-939 | a burst is 1 to 64 clusters, contiguous on the disk, and the cluster after it is the next of the chain |
| `FatLoad.RunIsStretch` | kernel/fat32.c:941-948 | a contiguous run of clusters is one stretch of the device, as far as the device goes |
| `FatLoad.LoadStep` | kernel/fat32.c:947-951 | so one read of the stretch shows every cluster of the run in its place |
| `FatLoad.BurstInWord` | kernel/fat32.c:942-945 | byte counts of bursts never leave 32 bits, so the cut to the file size compares true counts |
| `FatLoad.LoadBurst` | kernel/fat32.c:930-951 | one burst appends the next clusters of the chain; where the device ends the buffer keeps what it held |
| `FatLoad.LoadFile` | kernel/fat32.c:902-963 | for every chain: succeeds exactly if the file fits the buffer and its chain is long enough; every byte the device has is in its place, so a file on the device is delivered as the cluster-by-cluster read delivers it from offset 0 |
| `FatDelete.FreeChain` | kernel/fat32.c:1161-1167 | for every table with links in range, cyclic ones included, the walk ends and frees exactly the reachable clusters; every other entry and all reserved bits stay |
| `FatDelete.ReachesIsMember` | kernel/fat32.c:1161-1167 | on a well-formed file the reachable clusters are the clusters of the file |
| `FatSystem.WriteKeepsFileSystem` | kernel/fat32.c:212-261 | a write keeps all files chains and pairwise disjoint; the other files keep clusters and bytes |
| `FatSystem.DeleteKeepsFileSystem` | kernel/fat32.c:1161-1167 | a delete keeps the remaining files chains and pairwise disjoint and leaves all clusters of the deleted one free |
| `FatSystem.KeptIffRoomOnDevice` | kernel/fat32.c:148-165 | the file then has the bytes written at their offset if and only if the table names no free cluster past the end of the device, or the end of the request fits the clusters of the file, the free ones on the device and the part of a last one |
| `FatSystem.LostBeyondDevice` | kernel/fat32.c:148-261 | a mounted volume of three sectors whose table names 126 clusters: a write of 513 bytes to its file reports 513 and does not keep them |
| `FatSystem.DeviceEnds` | kernel/fat32.c:755-770 | every volume has an end: clusters below it are complete, those above it have nothing on the device |
| `FatSystem.WriteThenRead` | kernel/fat32.c:172-261 | for every write, short ones included, a read of the returned count has that length and gives back exactly the bytes written under that condition; the whole request is taken if its end fits the room on the device |
| `Checksum.Partial` | kernel/net.c:517-528 | adds the sum of the big-endian words, an odd last byte as a high byte, modulo 2^32 |
| `Checksum.Finish` | kernel/net.c:530-535 | folding the carries gives the complement of the one residue modulo 65535 that keeps zero apart |
| `Checksum.Checksum16` | kernel/net.c:494-515 | the checksum of the data: complement of the folded word sum |
| `Checksum.ChecksumParts` | kernel/net.c:517-535 | partial sums over two regions, then finish |
| `Checksum.FoldCarry` | kernel/net.c:530-535 | adding carries back in does not change the folded value (section 1 of RFC 1071) |
| `Checksum.PartsAreWhole` | kernel/net.c:517-535 | two regions give the checksum of their concatenation, for any lengths, if the first is even |
| `Checksum.OddPartsFail` | kernel/net.c:517-535 | after every odd first region, of whatever sum, the two forms disagree on some second region |
| `Checksum.StoredChecksumVerifies` | kernel/net.c:494-535 | if the word sum stays below 2^32 - 65535, storing the checksum in its zeroed field makes the whole sum to all ones (section 1 of RFC 1071) |
| `Checksum.WorkedExample` | kernel/net.c:494-515 | the example of section 3 of RFC 1071 has the checksum given there |
| `TcpSegment.BuildFrame` | kernel/net.c:885-946 | builds the padded frame with both checksums, and refuses payloads of more than 1994 bytes |
| `TcpSegment.FrameLayout` | kernel/net.c:885-946 | every header field stands where RFC 791 and RFC 793 put it, the frame has at least 60 bytes, and padding is zero |
| `TcpSegment.FlagBits` | kernel/net.c:1166-1177 | which bits of the flag byte are FIN, SYN, RST and ACK |
| `TcpSegment.SegmentVerifies` | kernel/net.c:919-942 | every segment built sums with its pseudo-header to all ones (section 3.1 of RFC 793) |
| `TcpSegment.IpHeaderVerifies` | kernel/net.c:907-917 | every IP header built sums to all ones |
| `TcpSegment.ParseBuilt` | kernel/net.c:1166-1177 | the fields and payload the receiver reads from a built segment are those it was built from |
| `TcpSegment.FrameRoundTrip` | kernel/net.c:1272-1342 | a receiver on the same wire gets exactly the segment out of the frame, padding cut off |
| `TcpSegment.OptionsSkipped` | kernel/net.c:1166-1177 | options between TCP header and payload are passed over |
| `TcpSegment.IpOptionsSkipped` | kernel/net.c:1272-1342 | so are options of the IP header |
| `TcpSegment.Refused` | kernel/net.c:1166-1177 | segments and frames too short for what their headers say, and frames of other protocols, are refused |
| `Tcp.Client.Store` | kernel/net.c:1202-1207 | as much of the payload as fits is appended to the receive buffer |
| `Tcp.Client.Accept` | kernel/net.c:1199-1221 | the in-sequence branch: copy, advance, note the end, acknowledge |
| `Tcp.Client.HandleTcp` | kernel/net.c:1165-1221 | the handler takes the connection to the state the step function gives, for every datagram |
| `Tcp.Client.Poll` | kernel/net.c:1165-1221 | a poll hands its datagrams to the handler in order |
| `Tcp.Client.PollWhile` | kernel/net.c:2898-2904 | the polling loop stops at the first batch that changes the state or fills the buffer, as specified, and keeps the tracking invariant whatever arrives |
| `Tcp.Client.Connect` | kernel/net.c:2806-2840 | -1 and no change without a ready interface; otherwise up to three rounds, the first answer decides, 0 exactly in the established state, -2 otherwise; peer numbers and our own are as their invariants say |
| `Tcp.Client.TryRounds` | kernel/net.c:2824-2838 | each round sends a SYN and polls; the first answer decides, none closes the connection |
| `Tcp.Client.Fetch` | kernel/net.c:2892-2919 | buffer installed, answer collected: result code and bytes exactly as specified, bytes a part of the stream from the position acknowledged when the buffer was installed |
| `Tcp.Client.TakeIn` | kernel/net.c:747-758 | segments that arrive while the request waits to be sent are acknowledged and lost, the tracking invariant kept |
| `Tcp.Client.Ask` | kernel/net.c:2886-2890 | the request goes out and the sequence number advances; what arrives before the buffer is installed is taken in |
| `Tcp.Client.Abort` | kernel/net.c:2846-2851 | the connection is closed and every later run of datagrams leaves it as it is; exactly if it was open or opening, one reset with the next expected number goes out |
| `Tcp.Client.HttpGet` | kernel/net.c:2864-2920 | the exact result code in every case; the bytes returned are the stream from the position on that had been acknowledged when the buffer was installed, whatever arrived before or while the request went out; that position is 0 exactly if the next expected number is the one behind the SYN, and then the result is a prefix; after a clean end all of the stream has been accepted; our own numbers count the SYN, the request and the end mark; afterwards no datagram can reach the buffer |
| `Tcp.FinishedIsFinal` | kernel/net.c:1165-1196 | a finished or closed connection ignores every run of datagrams |
| `Tcp.ReceiveTracks` | kernel/net.c:1178-1221 | one segment cut from the stream keeps the invariant: buffer a prefix from its base, next expected number equal to peer start plus accepted bytes modulo 2^32, acknowledgements such numbers in rising order, the latest always the next expected one |
| `Tcp.RunTracks` | kernel/net.c:1165-1221 | every run of segments of one peer, lost, repeated or reordered, keeps that invariant |
| `Tcp.ReceiveSpeaks` | kernel/net.c:1178-1221 | our own number is the initial one plus SYN, request bytes and end mark said so far, modulo 2^32; every segment sent carries it, the flags 0x10, 0x18 for the request and 0x11 for the end; one received segment keeps this |
| `Tcp.RunSpeaks` | kernel/net.c:1165-1221 | so does every run of datagrams, whoever sends them |
| `Tcp.SessionSpeaks` | kernel/net.c:2806-2920 | it holds from opening over handshake, request and answer to the end; if the peer ends before the request, the request goes out behind our end mark |
| `Tcp.HandshakeIff` | kernel/net.c:1179-1195 | the handshake succeeds with exactly the segments that have SYN and ACK set, not RST, and acknowledge our SYN; the next expected number is then the one behind theirs |
| `Tcp.ResetEnds` | kernel/net.c:1179-1183 | a reset finishes the connection, whatever its numbers, and is not answered |
| `Tcp.ForeignIgnored` | kernel/net.c:1166-1177 | only segments from the address and port talked to, to the port talked from, have any effect |
| `Tcp.PollIsRun` | kernel/net.c:2898-2904 | a polling loop handles all batches in order up to the first one after which there is nothing to wait for |
| `Tcp.ConnectIsPoll` | kernel/net.c:2824-2838 | the rounds of connecting are one long wait for the answer; without one the connection is closed |
| `Tcp.EarlyBytesLost` | kernel/net.c:2892-2896 | data accepted before a buffer is installed is acknowledged and lost: what is collected need not be a prefix |
| `Tcp.AcceptedIff` | kernel/net.c:1196-1200 | a segment makes progress if and only if it starts at the first missing byte; overlapping ones are dropped |
| `Tcp.TakesPiece` | kernel/net.c:1196-1221 | of a fixed segmentation the receiver takes exactly the piece it waits for, and is finished with the last one |
| `Tcp.FeedIsScan` | kernel/net.c:1165-1221 | for arrivals of one segmentation the receiver has taken exactly the pieces a greedy in-order reader takes |
| `Tcp.ScanComplete` | kernel/net.c:1165-1221 | if the pieces arrive in order among any others, that reader gets them all |
| `Tcp.RunIsFeed` | kernel/net.c:1165-1221 | on an open connection the handler does to datagrams what it does to the segments among them that belong to it |
| `Tcp.DeliveredWhole` | kernel/net.c:1165-1221 | then, whatever else the handler is given, the buffer is the whole stream, an empty one too, and the connection is finished; the end mark may come alone |
| `RxRing.StepInv` | kernel/net.c:1931-1967 | every interleaving of card deliveries and driver steps keeps registers, descriptors and hand-over in agreement with the frames that arrived |
| `RxRing.SafeFromStart` | kernel/net.c:1688-1967 | from initialisation on, in every interleaving: at most 15 frames in the ring, every frame not yet taken intact in its descriptor, and the sound frames handed up once, in order, on the wired route |
| `RxRing.RingShape` | kernel/net.c:1688-1723 | between passes the tail is one behind the cursor and the done descriptors are exactly those from the cursor up to the head |
| `RxRing.RoomIff` | kernel/net.c:1931-1967 | the card can store a frame if and only if fewer than 15 are waiting, so always after a full drain |
| `RxRing.Pass` | kernel/net.c:1933-1966 | one pass takes exactly the oldest waiting frame and keeps the invariant |
| `RxRing.PollDrains` | kernel/net.c:1931-1967 | a poll empties the ring: every stored frame has been handed up once, in order of arrival |
| `RxRing.WiredGetsAll` | kernel/net.c:1939-1942 | while the wired route is active, what is handed up is the frames of valid length, in order |
| `RxRing.StuckForever` | kernel/net.c:1947-1964 | a ring whose head and tail meet while empty never moves again |
| `RxRing.AdvancedTailSticks` | kernel/net.c:1947-1966 | writing the advanced cursor to the tail register leaves the ring in that state after its first frame |
| `RxRing.Device.constructor` | kernel/net.c:1688-1723 | the ring is initialised and satisfies the invariant |
| `RxRing.Device.OnePass` | kernel/net.c:1933-1966 | the body of the loop does one pass |
| `RxRing.Device.Poll` | kernel/net.c:1931-1967 | the loop does up to 16 passes, ending at the first descriptor not done |
| `Utf8.PrefixFree` | kernel/tokenizer.c:194-200 | no UTF-8 character is the beginning of another: the first byte tells its length |
| `Utf8.FrontChars` | kernel/tokenizer.c:194-200 | characters at the front of a text are its first characters |
| `Utf8.InsideChar` | kernel/tokenizer.c:194-200 | a place inside a character holds a continuation byte |
| `Bpe.FindExact` | kernel/tokenizer.c:170-182 | a text is found exactly if it is in the vocabulary, under an index that spells it |
| `Bpe.SpecialAt` | kernel/tokenizer.c:148-168 | the control token found is one that stands at the front of the text |
| `Bpe.SpecialHereIs` | kernel/tokenizer.c:148-168 | a control token stands at the front exactly if it is not empty and the text begins with it |
| `Bpe.SpecialFirst` | kernel/tokenizer.c:148-168 | of several control tokens that stand there it is the longest, of equally long ones the first listed |
| `Bpe.ByteNameInjective` | kernel/tokenizer.c:184-192 | different bytes have different fallback names |
| `Bpe.ByteNameSpelt` | kernel/tokenizer.c:184-192 | the fallback name of a byte is its two upper-case hexadecimal digits between <0x and > |
| `Bpe.CharLenIs` | kernel/tokenizer.c:194-200 | the length read off the first byte of a UTF-8 character is its length |
| `Bpe.PieceAt` | kernel/tokenizer.c:260-276 | a piece starts where it is asked for, is not empty and ends inside the text |
| `Bpe.PieceIsChar` | kernel/tokenizer.c:260-276 | in UTF-8 text a piece that starts with a character is that character, cut at the end of the text; one that starts inside a character is a single byte |
| `Bpe.SplitOnChars` | kernel/tokenizer.c:257-277 | the initial symbols of UTF-8 text are its characters and the control tokens in it |
| `Bpe.SplitTiled` | kernel/tokenizer.c:257-277 | the initial symbols cover the text without gap or overlap, all of it unless the 512 symbols run out |
| `Bpe.Best` | kernel/tokenizer.c:287-307 | the scan yields the leftmost of the highest-scoring mergeable pairs, if there is one |
| `Bpe.EncodeIsNormal` | kernel/tokenizer.c:287-315 | no mergeable pair is left at the end |
| `Bpe.EncodeMerges` | kernel/tokenizer.c:287-315 | the pieces come about by merging, again and again, the leftmost of the highest-scoring neighbours that together spell a token, until no two do |
| `Bpe.EncodeOnChars` | kernel/tokenizer.c:287-315 | merging never puts a cut inside a character |
| `Bpe.EncodeTiled` | kernel/tokenizer.c:287-315 | merging keeps the pieces a partition of the text |
| `Bpe.EncodeKeepsControls` | kernel/tokenizer.c:295 | control tokens are never merged: they come through as they were, in order |
| `Bpe.EncodeMatches` | kernel/tokenizer.c:261-273 | every control piece still is the text of its token |
| `Bpe.EmitJustified` | kernel/tokenizer.c:322-341 | every id emitted is the token of its piece of the text or the fallback of one byte of it |
| `Bpe.EmitPieceIs` | kernel/tokenizer.c:322-341 | a piece is emitted as the control token it is, or as the first token that spells it, or byte by byte under the fallback names |
| `Bpe.EmitCovers` | kernel/tokenizer.c:322-341 | with a fallback for every byte, the emitted stretches cover the text without gap or overlap |
| `Tokenizer.FindToken` | kernel/tokenizer.c:170-182 | the vocabulary scan returns the index the specification names, or -1 |
| `Tokenizer.FindSpecial` | kernel/tokenizer.c:148-168 | the control-token scan returns the longest match as specified, or -1 |
| `Tokenizer.Prepare` | kernel/tokenizer.c:236-253 | the buffer holds the marked text |
| `Tokenizer.FillIsPrefix` | kernel/tokenizer.c:239-253 | which is a prefix of the marked text, all of it if it fits |
| `Tokenizer.MarkIs` | kernel/tokenizer.c:236-253 | the mark put for a space is the one character U+2581 |
| `Tokenizer.SubstitutedChars` | kernel/tokenizer.c:239-253 | marking UTF-8 text replaces the spaces among its characters and nothing else |
| `Tokenizer.NextPiece` | kernel/tokenizer.c:261-268 | the next symbol is the specified piece, which in UTF-8 text is a control token or a character (Bpe.PieceIsChar) |
| `Tokenizer.SplitInto` | kernel/tokenizer.c:257-277 | the symbol array is a linked list of the specified pieces |
| `Tokenizer.PairToken` | kernel/tokenizer.c:293-299 | the candidate token of two neighbours is the specified merge |
| `Tokenizer.FindBest` | kernel/tokenizer.c:288-305 | walking the links finds the symbol of the leftmost best pair |
| `Tokenizer.SpliceLinked` | kernel/tokenizer.c:309-314 | unlinking the right symbol leaves the list of the merged sequence |
| `Tokenizer.Merge` | kernel/tokenizer.c:309-314 | one merge in the array is one merge in the sequence |
| `Tokenizer.MergeAll` | kernel/tokenizer.c:287-315 | the loop over the array computes the specified encoding and ends, as every round removes a live symbol |
| `Tokenizer.EmitFallback` | kernel/tokenizer.c:335-340 | the byte fallbacks of a symbol, cut at the token limit |
| `Tokenizer.EmitSymbol` | kernel/tokenizer.c:324-340 | a symbol contributes its control token, its vocabulary token, or its byte fallbacks |
| `Tokenizer.EmitTokens` | kernel/tokenizer.c:322-341 | the ids of all pieces in order, cut at the token limit |
| `Tokenizer.Tokenize` | kernel/tokenizer.c:227-344 | the encoder returns the specified ids, cut at the token limit; EncodingOnChars and EncodingMerges say what these are |
| `Tokenizer.EncodingSound` | kernel/tokenizer.c:227-344 | ids justified by the text, control tokens kept, no mergeable pair left |
| `Tokenizer.EncodingOnChars` | kernel/tokenizer.c:227-344 | for UTF-8 text the buffer holds the marked characters, all of them if they take at most 596 bytes, the symbols start out as those characters and the control tokens, and no id stands for bytes that start inside a character |
| `Tokenizer.EncodingMerges` | kernel/tokenizer.c:227-344 | from the first 512 symbols to the final pieces every step merges the leftmost best pair, and at the end no pair can be merged |
| `Tokenizer.EncodingLossless` | kernel/tokenizer.c:227-344 | with a fallback for every byte the ids spell the marked text, all of it if it has fewer than 512 symbols |
| `Gguf.Skip` | kernel/llm_gguf.c:86-130 | a size is positive, and that of a string or array lies inside the file |
| `Gguf.SkipValue` | kernel/llm_gguf.c:86-130 | the recursive size computation with its element loop; bytes left to the end of the file decrease, so it ends on every input |
| `Gguf.ScalarWritten` | kernel/llm_gguf.c:86-111 | the size assumed for a scalar type is the number of bytes such a value is written with |
| `Gguf.ScalarsOnly` | kernel/llm_gguf.c:86-111 | no other type has a fixed size |
| `Gguf.SkipWritten` | kernel/llm_gguf.c:86-130 | wherever a written value stands in a file, nested arrays included, its size is found; values are written by type, with the tag and width of the format |
| `Gguf.SkipManyWritten` | kernel/llm_gguf.c:112-122 | the same for the elements of a written array |
| `GgufFile.ProbeWritten` | kernel/llm_gguf.c:202-279 | probing a written file yields its version, counts and exactly the offsets the writer used |
| `GgufFile.ProbeSound` | kernel/llm_gguf.c:212-279 | a file that is accepted, written or not, has the mark GGUF, version 1 to 3, at most 1000 entries of each kind, and its data start on a multiple of 32 inside it |
| `GgufFile.MagicSpelt` | kernel/llm_gguf.c:217-221 | the mark compared is the four letters in file order |
| `GgufExact.ValueRead` | kernel/llm_gguf.c:86-130 | conversely, whatever value the size computation finds the size of, nested arrays included, is one that can be written, of that type and that many bytes |
| `GgufExact.EntryRead` | kernel/llm_gguf.c:238-256 | a metadata entry that is passed over is a written one |
| `GgufExact.TensorRead` | kernel/llm_gguf.c:258-275 | so is a row of the tensor table |
| `GgufExact.FileRead` | kernel/llm_gguf.c:202-279 | the description of an accepted file, unless its table ends in the last 31 bytes a file can have |
| `GgufExact.AcceptedIffWritten` | kernel/llm_gguf.c:202-291 | a file is accepted, with data behind its tables, if and only if it can be written; below 2^32 - 31 bytes, accepted if and only if it can be written |
| `GgufFile.WriteFileWritten` | kernel/llm_gguf.c:202-279 | every description of a file has a written file, unless that is too long for 32 bits |
| `GgufFile.DataOffsetIs` | kernel/llm_gguf.c:276-277 | the start of the data as computed is the next multiple of 32 if and only if that can be reached in 32 bits |
| `GgufFile.EntriesSkipped` | kernel/llm_gguf.c:238-256 | the metadata walk ends where the written metadata ends |
| `GgufFile.TensorsSkipped` | kernel/llm_gguf.c:258-275 | the tensor walk ends where the written table ends |
| `GgufLookup.SearchFinds` | kernel/llm_gguf.c:19-55 | a search led from record to record arrives at the one wanted |
| `GgufLookup.MetaWritten` | kernel/llm_gguf.c:19-55 | with distinct NUL-free keys of up to 63 bytes each entry is found with its type at the place where its value stands |
| `GgufLookup.GetMetaWritten` | kernel/llm_gguf.c:132-170 | and a caller who expects its type gets the bytes of a 32- or 64-bit number, or the first 63 of a string of up to 255; nobody else gets anything |
| `GgufLookup.SeenIs` | kernel/llm_gguf.c:36-44 | a name is compared by its longest start of at most 63 bytes without a NUL, so as a whole exactly if it has at most 63 bytes and no NUL |
| `GgufLookup.ByteSize` | kernel/llm_gguf.c:342-369 | the size computed in 64-bit arithmetic is the true size modulo 2^64, and known exactly for F32, F16, Q4_0 and Q6_K rows of whole blocks |
| `TensorSize.RowsOf` | kernel/llm_gguf.c:342-369 | that size is the number of rows times the bytes of a row: words, half words, or packed blocks of 32 and 256 weights; other row lengths have none |
| `GgufLookup.WrapMul` | kernel/llm_gguf.c:342-369 | wrapping after every multiplication is wrapping once |
| `GgufLookup.FittingAccepted` | kernel/llm_gguf.c:424-430 | data that truly lies in the file is never refused by the wrapping checks |
| `GgufLookup.AcceptedInFileIff` | kernel/llm_gguf.c:418-430 | a tensor handed out lies in the file if and only if neither its place nor its size leaves 64 bits |
| `GgufLookup.WrappedAccepted` | kernel/llm_gguf.c:418-438 | a written file from which the parser hands out a tensor of 2^66 bytes and one in front of the data |
| `GgufLookup.TensorWritten` | kernel/llm_gguf.c:380-417 | with distinct NUL-free names of up to 63 bytes the search finds the written row |
| `GgufLookup.GetTensorWritten` | kernel/llm_gguf.c:374-443 | and the lookup returns the shape, type and offset the tensor was written with |
| `GgufLookup.FoundInFile` | kernel/llm_gguf.c:374-443 | whatever place it claims, the lookup applies exactly the range checks to the row the tensor was written with |
| `GgufProbe.PassEntries` | kernel/llm_gguf.c:238-256 | the metadata loop computes the specified walk |
| `GgufProbe.PassRows` | kernel/llm_gguf.c:258-275 | the tensor table loop computes the specified walk |
| `GgufProbe.Compute` | kernel/llm_gguf.c:212-291 | the body of the probe computes the specified result, every refusal included |
| `GgufProbe.FindEntry` | kernel/llm_gguf.c:19-55 | the metadata lookup loop computes the specified search, with the offset wrapping where the code does not check it |
| `GgufProbe.GetValue` | kernel/llm_gguf.c:132-170 | the value getter computes the specified lookup, every refusal included |
| `GgufProbe.TakeDims` | kernel/llm_gguf.c:405-409 | the dimensions are read, cut to 32 bits, exactly if all lie in the file |
| `GgufProbe.FindRow` | kernel/llm_gguf.c:380-441 | the tensor lookup loop computes the specified search |
| `GgufProbe.CheckRow` | kernel/llm_gguf.c:424-438 | the range checks hand out exactly the rows the specification accepts; AcceptedInFileIff says which of them lie in the file |
| `GgufProbe.Parser.ProbeRange` | kernel/llm_gguf.c:202-211 | a cached answer is the answer of a fresh probe, and a success is cached |
| `GgufProbe.Parser.Invalidate` | kernel/llm_gguf.c:195-197 | whatever has happened to memory, the cache is valid again: the next probe is a fresh one |
| `GgufProbe.Parser.Tensor` | kernel/llm_gguf.c:374-443 | lookup through the cache answers like a lookup in the bytes of the file |
| `Bitmap.TakeIs` | kernel/pmm.c:200-206 | setting a bit marks that block and no other |
| `Bitmap.GiveIs` | kernel/pmm.c:208-214 | clearing a bit frees that block and no other |
| `Bitmap.CountTake` | kernel/pmm.c:200-206 | the number of marked blocks grows by one |
| `Bitmap.CountGive` | kernel/pmm.c:208-214 | the number of marked blocks falls by one |
| `Bitmap.FirstClearIs` | kernel/pmm.c:216-231 | every block below the one found is in use |
| `Bitmap.LowestClear` | kernel/pmm.c:217-230 | the word-by-word search with full words passed over finds the lowest clear bit |
| `Bitmap.NoneFound` | kernel/pmm.c:399-419 | the search comes back empty only when every block is in use |
| `Bitmap.GiveEachBack` | kernel/highmem.c:19-24 | freeing a list of blocks that were free before restores the bitmap |
| `Pmm.Allocator.constructor` | kernel/pmm.c:64-74 | everything starts out in use, and the counter agrees |
| `Pmm.Allocator.SetBlock` | kernel/pmm.c:200-206 | marks one block if it exists; the counter stays the number of marked blocks |
| `Pmm.Allocator.UnsetBlock` | kernel/pmm.c:208-214 | frees one block if it exists; the counter stays the number of marked blocks |
| `Pmm.Allocator.AllocBlock` | kernel/pmm.c:216-231 | the lowest free block is marked and its address returned; 0 if there is none, but also if it is block 0 |
| `Pmm.Allocator.FreeBlock` | kernel/pmm.c:263-267 | frees the block of an address |
| `Pmm.Allocator.FindRun` | kernel/pmm.c:242-258 | finds the lowest run above block 0 of the length asked for, exactly if one exists |
| `Pmm.Allocator.AllocRegion` | kernel/pmm.c:233-261 | succeeds if and only if 0 < size and size is at most the largest free run, takes the lowest sufficient run above block 0 and marks exactly its blocks |
| `Pmm.Allocator.LargestFreeBytes` | kernel/pmm.c:294-310 | the size of the longest free run above block 0 |
| `Pmm.LargestBounds` | kernel/pmm.c:294-310 | no free run is longer than the largest |
| `Pmm.LargestAttained` | kernel/pmm.c:294-310 | the largest free run is there |
| `Pmm.RoomIffLargest` | kernel/pmm.c:233-310 | room for n blocks exists if and only if n is at most the largest run |
| `Pmm.NeededFits` | kernel/pmm.c:35-40 | rounding up to blocks, saturation included, does not change which sizes fit |
| `Pmm.Allocator.Reserve` | kernel/pmm.c:269-275 | marks exactly the existing blocks from that of the base up to the one before the end rounded up, the end taken modulo 2^32 |
| `Pmm.Allocator.Free` | kernel/pmm.c:277-283 | frees exactly the existing blocks from that of the base up to the one before the end rounded up, the end taken modulo 2^32 |
| `Pmm.TouchedIff` | kernel/pmm.c:269-283 | the blocks of a region are those that share a byte with the bytes from the base up to the end |
| `Pmm.TakeAllIs` | kernel/pmm.c:250-252 | marking a range marks it and nothing else |
| `Pmm.GiveBack` | kernel/pmm.c:277-283 | freeing a region that was allocated restores the bitmap |
| `HighPool.Pool.Record` | kernel/pmm.c:115-161 | the whole pages of a usable range above 4 GiB join the pool with consecutive numbers, up to 32 regions and 2^32 - 1 pages |
| `HighPool.FreshIs` | kernel/pmm.c:136-148 | a range counts exactly if it holds a whole page above 4 GiB; if it starts in the last page below 2^64, exactly if 1024 bytes of it are left |
| `HighPool.NewRegionHigh` | kernel/pmm.c:141-160 | the pages recorded lie above 4 GiB, unless the range starts in the last page below 2^64; then rounding wraps to 0 and the pool fills up to 2^32 - 1 pages |
| `HighPool.WholePages` | kernel/pmm.c:115-143 | the page boundaries of the part of a range above 4 GiB, ends that wrap cut off, for every 64-bit base and length |
| `HighPool.Pool.Start` | kernel/pmm.c:356-370 | the pool becomes available, with a clear bitmap, exactly if it has pages, their number plus 31 stays below 2^32 and there is memory; all its regions then lie above 4 GiB |
| `HighPool.Pool.IndexToPhys` | kernel/pmm.c:372-382 | the address of a page from its number |
| `HighPool.PhysNone` | kernel/pmm.c:372-382 | a number that no region holds has address 0 |
| `HighPool.Pool.PhysToIndex` | kernel/pmm.c:384-397 | the number of a page from its address |
| `HighPool.IndexOfPhys` | kernel/pmm.c:372-397 | with disjoint regions the number of the address of page i is i |
| `HighPool.PhysOfIndex` | kernel/pmm.c:372-397 | the address of the number of an address is the address, overlap or not |
| `HighPool.OverlapConfuses` | kernel/pmm.c:384-397 | if two regions overlap, some page is numbered as another one |
| `HighPool.BijectionIffApart` | kernel/pmm.c:372-397 | numbers and addresses correspond one to one if and only if no two regions overlap |
| `HighPool.Pool.Alloc` | kernel/pmm.c:399-419 | the lowest free page is marked and its address, above 4 GiB, returned; 0 exactly if there is none or the pool is not available |
| `HighPool.Pool.Free` | kernel/pmm.c:421-429 | the page an address is numbered as is freed if it is in use; otherwise nothing changes |
| `HighMem.DistinctFrames` | kernel/highmem.c:11-34 | if regions do not overlap, the pages of a buffer are different pages |
| `HighMem.PageCount` | kernel/highmem.c:11-17 | the least number of pages that holds the size, or 0 for the last 4095 sizes, where it wraps |
| `HighMem.Grab` | kernel/highmem.c:18-28 | the allocation loop succeeds exactly if enough pages are free and takes page numbers that were free, no number twice; a failure has taken all free pages and freed them by their addresses, which restores the map if and only if each of them has its number back |
| `HighMem.RestoredIff` | kernel/highmem.c:18-26 | freeing by address what was just taken restores the map if and only if each page taken has its number back |
| `HighMem.RestoresIffApart` | kernel/highmem.c:18-26 | every failed allocation restores the map if and only if no two regions overlap |
| `HighMem.LeftOver` | kernel/highmem.c:18-26 | a free page without its number stays in use for good after a failed allocation |
| `HighMem.FailureLeaks` | kernel/highmem.c:18-26 | a pool set up from a map that lists a page twice: asking for three pages fails and leaves one in use |
| `HighMem.GiveUp` | kernel/highmem.c:19-24 | each address clears the page it is numbered as; if regions do not overlap, exactly the pages given are freed |
| `HighMem.Alloc` | kernel/highmem.c:11-34 | succeeds if and only if the page count is not 0, its table can be allocated and enough pages are free; a failure for want of pages leaves the map unchanged if and only if each free page has its number back, so always if regions do not overlap; any other failure changes nothing |
| `HighMem.Release` | kernel/highmem.c:36-46 | each address clears the page it is numbered as; if regions do not overlap, exactly the pages of the buffer are freed |
| `HighMem.Read` | kernel/highmem.c:48-84 | succeeds exactly for ranges inside the buffer and returns its bytes, across scattered pages |
| `HighMem.Write` | kernel/highmem.c:48-89 | succeeds exactly for ranges inside the buffer; only its pages change, every byte to the last one of the data that belongs there; if they are different pages they hold the flat contents with the data put in |
| `HighMem.HeldAfter` | kernel/highmem.c:48-89 | what a filled buffer holds, byte by byte, even if a page occurs twice |
| `HighMem.HeldIff` | kernel/highmem.c:48-89 | that is the source if and only if the source has the same bytes wherever the buffer has the same page |
| `HighMem.HoldsAllIffDistinct` | kernel/highmem.c:48-89 | a buffer holds every source of its size if and only if its pages are different pages |
| `HighMem.DistinctIffApart` | kernel/highmem.c:11-34 | every buffer has different pages if and only if no two regions overlap |
| `HighMem.CopyGarbled` | kernel/highmem.c:48-89 | a pool set up from a map that lists a page twice: what is read back of a two-page source is not the source |
| `GgufData.CopyIn` | kernel/llm_gguf.c:500-508 | copying in chunks of 65536 leaves the same as copying the whole source at once |
| `GgufData.Fill` | kernel/llm_gguf.c:498-508 | only pages of the buffer change; its contents are the source if and only if the source has the same bytes wherever the buffer has the same page, so always if regions do not overlap |
| `GgufData.DataStore.Migrate` | kernel/llm_gguf.c:477-532 | succeeds if and only if the data section is there, at least 8 MiB and the pool has room; the buffer then has pages that were free, is filled with the data section and no other page changes; a failure for want of pages restores the map if and only if each free page has its number back, any other failure changes nothing |
| `GgufData.DataStore.ReleaseBacking` | kernel/llm_gguf.c:534-539 | the pages go back to the pool exactly if this file is backed |
| `GgufData.DataStore.ReadData` | kernel/llm_gguf.c:541-548 | not migrated: the bytes at that place of low memory; migrated: succeeds exactly for ranges inside the data and returns what the buffer holds there, which is what low memory holds, counted from the offset migrated with, for every range if and only if the data has the same bytes wherever the buffer has the same page |
| `Kheap.PlacedSound` | kernel/kheap.c:92-122 | allocation keeps the blocks tiling the heap with no two free neighbours |
| `Kheap.Align4` | kernel/kheap.c:32-34 | the least multiple of 4 that holds the size; 0 for size 0 and for the last three sizes, where it wraps |
| `Kheap.FreedSound` | kernel/kheap.c:124-144 | freeing keeps the blocks tiling the heap with no two free neighbours |
| `Kheap.RunSound` | kernel/kheap.c:81-144 | so does every run of calls |
| `Kheap.PayloadsDisjoint` | kernel/kheap.c:92-122 | payloads of different blocks do not overlap |
| `Kheap.PlacedLive` | kernel/kheap.c:104-118 | allocation adds one live block, at least as large as asked for and by less than 20 bytes larger, and leaves all others alone |
| `Kheap.FreedLive` | kernel/kheap.c:130-143 | freeing takes away exactly the block freed |
| `Kheap.PlacedFreed` | kernel/kheap.c:92-144 | freeing what was just allocated restores the exact list |
| `Kheap.AllocReleased` | kernel/kheap.c:92-144 | in terms of the calls: releasing the address an allocation chose undoes it |
| `Kheap.NothingLive` | kernel/kheap.c:81-90 | a heap in which nothing is in use is the single initial block |
| `Kheap.FreeAllRestores` | kernel/kheap.c:124-144 | freeing everything in any order restores the single initial block |
| `Kheap.FirstFitIs` | kernel/kheap.c:98-120 | no block before the one chosen fits |
| `Kheap.FirstFitFinds` | kernel/kheap.c:92-120 | a block is found if and only if a free one is as large as the request, unrounded |
| `Kheap.Aligned` | kernel/kheap.c:92-122 | every block of every heap reached starts on a multiple of 4 |
| `Kheap.Conserved` | kernel/kheap.c:146-170 | free, used and header bytes add up to the heap |
| `Kheap.TotalsAre` | kernel/kheap.c:146-170 | free bytes are in free blocks, used ones in used blocks, and every free block is counted once |
| `KheapList.LinkedSplit` | kernel/kheap.c:106-115 | splitting in the header chain is splitting in the sequence |
| `KheapList.LinkedJoin` | kernel/kheap.c:66-67 | absorbing the next header is joining in the sequence |
| `KheapList.Heap.constructor` | kernel/kheap.c:81-90 | one free block covers the heap, which starts on a page boundary, the first one at or above both 12 MiB and the address given |
| `KheapList.Heap.Malloc` | kernel/kheap.c:92-122 | fails exactly for size 0, the last three sizes, and if no free block has as many bytes as asked for; otherwise places the request in the first fit, and the caller gets a block of its own, on a multiple of 4, with the bytes asked for and less than 24 more |
| `KheapList.Heap.Coalesce` | kernel/kheap.c:59-69 | joins free successors until there is none |
| `KheapList.Heap.Free` | kernel/kheap.c:124-144 | frees the live block with that payload address and no other and merges it with its neighbours; any other address is ignored |
| `KheapList.Heap.JoinPrevious` | kernel/kheap.c:133-143 | the walk finds the predecessor and joins it if free |
| `KheapList.Heap.Stats` | kernel/kheap.c:146-170 | the totals account for every byte of the heap |
| `Extfs.ReadBlockIs` | kernel/extfs.c:113-132 | a block is the stretch of the device that starts at its number times the block size; it is refused exactly if it is past the volume, past 32 bits or past the device |
| `Extfs.PointerIs` | kernel/extfs.c:241-246 | a pointer is the little-endian word at four times its index in its block on the device, 0 if the block is absent or unreadable |
| `Extfs.SizeOkIs` | kernel/extfs.c:424-445 | block sizes are 1024 doubled at most six times |
| `Extfs.WalkFindsLeaf` | kernel/extfs.c:235-284 | walking down by division and remainder finds the leaf with the same number in the flattened tree |
| `Extfs.BlockOfIsFlattened` | kernel/extfs.c:225-285 | block i of a file is element i of the flattened direct, single, double and triple tree for all i below 12 + e + e^2 + e^3, and 0 beyond |
| `Extfs.Follow` | kernel/extfs.c:241-246 | reads that pointer |
| `Extfs.InodeBlock` | kernel/extfs.c:225-285 | the block map function computes that element |
| `Extfs.TripleBlock` | kernel/extfs.c:264-284 | the triple-indirect branch, indices past the tree included |
| `Extfs.CopyBlocks` | kernel/extfs.c:611-622 | the copy loop delivers the blocks in order up to the first one missing or unreadable |
| `Extfs.LoadFile` | kernel/extfs.c:593-632 | succeeds if and only if the file fits the buffer and all its blocks are there, and then delivers their concatenation cut to the file size: byte k is byte k mod block size, on the device, of the block that the block map names for k div block size |
| `Iwl.TargetIs` | kernel/iwlwifi.c:2537-2539 | among the 256 indices from the read index on, exactly one has the low bits reported, and the rebuilt index is the one after it |
| `Iwl.CompletesExactly` | kernel/iwlwifi.c:2537-2541 | a report with the low bits of an index k in flight sets the read index to k + 1 |
| `Iwl.StaleIgnoredIff` | kernel/iwlwifi.c:2537-2541 | low bits of no index in flight change nothing if and only if the rebuilt index stays below 2^32 |
| `Iwl.StaleAccepted` | kernel/iwlwifi.c:2538-2541 | an instance near the wrap where such a report throws the read index back to 0 |
| `Iwl.CompleteKeepsWindow` | kernel/iwlwifi.c:2537-2541 | read index at most write index at most read index + 32 is kept by every report that does not wrap |
| `Iwl.SlotsApart` | kernel/iwlwifi.c:1845-1850 | indices less than 32 apart use different buffers and descriptors |
| `Iwl.ByteCountIs` | kernel/iwlwifi.c:1879-1882 | the byte count holds the least number of words for the frame and 8 bytes more, 16 if its protected bit is set, and the station |
| `Iwl.StandingKept` | kernel/iwlwifi.c:1841-1896 | sending leaves buffer, descriptor and both byte counts of every frame in flight as they were |
| `Iwl.Ring.Send` | kernel/iwlwifi.c:1832-1901 | a frame is accepted exactly if its length is allowed and fewer than 32 are in flight, and none of those is disturbed, not even by the send after which the index wraps |
| `Iwl.Ring.Completed` | kernel/iwlwifi.c:2535-2543 | the completion branch computes the specified read index and keeps the ring valid unless the index wraps |
| `Iwl.RunKeepsWindow` | kernel/iwlwifi.c:1841-1896 | in every run of at most 2^32 - 257 frames, whatever is reported, at most 32 frames are in flight |
| `Task.NextTurn` | kernel/task.c:68-77 | a switch goes to the first live task in turn, who then is last in turn |
| `Task.TurnsAreLive` | kernel/task.c:68-77 | every live task has exactly one turn |
| `Task.SwitchedLive` | kernel/task.c:65-84 | a switch keeps exactly one task running, the current one, and no task dies or appears |
| `Task.RoundRobin` | kernel/task.c:65-84 | with k live tasks any k switches in a row run each of them exactly once |
| `Task.CreatedOk` | kernel/task.c:19-59 | a new task gets a page that was free, so live tasks keep distinct marked pages |
| `Task.KilledRuns` | kernel/task.c:86-107 | after a kill exactly the next task runs |
| `Task.KilledOwned` | kernel/task.c:109-112 | the page of a killed task goes back and every other live task keeps its own |
| `Task.NextIsLive` | kernel/task.c:92-103 | the search ends at a live task, at the killed one itself if and only if no other lives |
| `Task.FreeSlotIs` | kernel/task.c:19-31 | the slot a new task gets is the lowest dead one above 0 |
| `Task.KilledOutcome` | kernel/task.c:86-112 | what a kill leaves is in order if and only if another task lived or the killed one is task 0 |
| `Task.LastTaskKilled` | kernel/task.c:86-112 | a sequence of calls after which it is not: the kernel is killed, then its only task, which goes on running on a stack page that is free |
| `Task.Scheduler.constructor` | kernel/task.c:10-15 | the kernel is task 0 and runs |
| `Task.Scheduler.Create` | kernel/task.c:19-59 | the lowest dead slot above 0, or a new one below 64, gets the lowest free page; without a page the slot stays dead |
| `Task.Scheduler.NextTask` | kernel/task.c:69-76 | the search loop finds the next live task |
| `Task.Scheduler.Switch` | kernel/task.c:65-84 | the table after a switch, all invariants kept |
| `Task.Scheduler.Kill` | kernel/task.c:86-115 | halts exactly with a single slot; otherwise the table and the bitmap after a kill, with all invariants exactly in that case |
| `Quant.InStep2Is` | kernel/llm.c:976-980 | adding the two nibble streams in step is adding both stretches |
| `Quant.Unpacked4` | kernel/tensor.c:103-130 | in a row that holds packed numbers from -8 to 7, weight i is the scale times number i |
| `Quant.Dequantize4` | kernel/tensor.c:103-130 | every weight of the whole blocks is stored in its place, each exactly once, and nothing else |
| `Quant.Dot4` | kernel/llm.c:959-983 | the fused product equals dequantising the row and then taking the dot product, over its whole blocks |
| `Quant.FusedDot4` | kernel/llm.c:959-983 | with any decoder that keeps values, as the two of the kernel do, it is the product with the row of true weights, if all scales are finite |
| `Quant.DotOfWeights` | kernel/llm.c:959-983 | the plain dot product as a sum of products |
| `Quant6.Place6` | kernel/tensor.c:153-163 | place of a weight from super-block, half, quarter and position, and back |
| `Quant6.Unpacked6` | kernel/tensor.c:142-171 | in a row that holds packed numbers from -32 to 31, weight k is the scale times the scale of its sixteen times number k |
| `Quant6.Dequantize6` | kernel/tensor.c:142-171 | every weight of the whole super-blocks is stored in its place, each exactly once, and nothing else |
| `Quant6.Dot6` | kernel/llm.c:992-1024 | the fused product equals dequantising the row and then taking the dot product, over its whole super-blocks |
| `Quant6.FusedDot6` | kernel/llm.c:992-1024 | with any decoder that keeps values, as the two of the kernel do, it is the product with the row of true weights, if all scales are finite |
| `Half.Decode` | kernel/tensor.c:19-49 | every 16-bit float is decoded to the 32-bit float with the same sign and value, subnormal ones included; infinities and payloads are kept |
| `Half.SameBits` | kernel/llm.c:932-957 | the value determines the bits, so the two decoders of the kernel are one function |
| `Half.DecodedValue` | kernel/tensor.c:19-49 | the decoded bits of a finite number have its value as a real |
| `Half.OneIs` | kernel/tensor.c:19-49 | the bits 0x3C00 stand for 1 |
| `Half.Negated` | kernel/tensor.c:19-49 | numbers without the top bit are not negative, and the top bit negates |

## Left out

- Directories: lookup, creation and directory entries of FAT32 and ext2; files are given by their first cluster or inode.
- The second FAT copy, which the code does not update.
- Device errors, timeouts and port I/O of the ATA driver, and aborts by Ctrl+C.
- Preemption inside `net_poll`: a poll is atomic. The Realtek and Wi-Fi receive paths of `net_poll` are not modelled.
- ARP, UDP, DNS and ICMP; TCP segments enter as datagrams already extracted from frames.
- WPA2, firmware upload and MMIO of the Wi-Fi driver; the transmit command header is reduced to the frame it carries.
- Page tables and the mapping windows to high memory: a window is direct access to its page.
- Floating-point rounding and fixed-point conversion: weights are exact reals, and the value of a 16-bit scale is a
  parameter of the dequantisers. NaN scores in the tokenizer.
- The architecture fields `gguf_probe` fills in from metadata, and the metadata array getter.
- The bytes of heap headers that have been merged away; its payload address then names no block.
- Shell, system calls, logging and boot wiring.
- FatVolume.Volume.ReadCluster: for a cluster past the end of the device it says what the buffer then holds, not that the read failed, because the code ignores the short count.
- Fat32.Read: says nothing about bytes past the end of the device, where the code delivers whatever the scratch buffer held.
- Tcp.Client.Connect: the choice of local port and initial number, and whether a send reached the card, are inputs; the log of acknowledgements counts sends attempted.
- Quant.FusedDot4: says nothing for rows with an infinite or undefined scale, which have no real value.
- Quant6.FusedDot6: says nothing for rows with an infinite or undefined scale, which have no real value.
- Tcp.Client.HttpGet: name resolution and the text of the request are not part of it; whether the name resolves, its length and whether it could be sent are inputs.
- HighPool.Pool.Record: the counters kept for display are not modelled.
- HighMem.Alloc: whether the page table could be allocated is an input.
- Iwl.Ring.Send: the ring is not shown valid after the send that takes the write index to 2^32, as the index wraps to 0 there.
- KheapList.Heap.constructor: a start so high that rounding it up leaves 32 bits is excluded.
- KheapList.Heap.Free: a pointer is taken for a block exactly if a header starts in front of it; the code also trusts a magic word that payload bytes happen to spell.
- GgufProbe.Parser.ProbeRange: memory outside the kernel's view is not modelled; the range probed must lie in it.
- Extfs.LoadFile: starts from the inode found, and whether the two block buffers could be allocated is an input.
- Task.Scheduler.Kill: halting is a result; what a task does after its stack page is freed is not modelled.
- Task.Scheduler.Create: the initial stack frame and the page directory are not modelled.
