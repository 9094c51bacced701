# NandroidFS, verified model

NandroidFS shows an Android device as a Windows drive. A Windows client and a daemon on the device
speak a lock-step binary protocol over one byte stream; the client keeps two timed caches in front
of it. This project models that protocol and its surroundings in Dafny and proves what they keep.

- `Bits`, `Wire`: bitwise operators, fixed-width integers, network byte order (Appendix B of RFC 791).
- `Streams`: the buffered reader and writer, refining a plain byte sequence.
- `Messages`, `Codec`: the wire format as pure functions, and the structs as they are written and read.
- `Posix`, `Daemon`: files, descriptors and system calls after the System Interfaces volume of
  POSIX.1-2017, with arbitrary short counts and failures, and the daemon's handlers over them.
- `Exchange`: every interleaving of client threads, byte movements and the daemon.
- `TimedCache`, `Paths`, `Coherence`, `Connection`: the cache, its keys, both caches under every
  interleaving, and the client object that fills and clears them.
- `Handles`: from a Windows disposition to a descriptor and its close.
- `Times`, `Lines`, `AgentOutput`, `Devices`: time arithmetic and text parsing.

How the layers meet. `Streams` reduces buffering to byte sequences; `Codec` ties the code that reads
and writes to the pure format; `Daemon.ClientHandler.HandleMessage` ends in the relation
`Posix.Serves`, which is the daemon's step in `Exchange` and, for reads, writes and all other
requests, opens and closes included, in `Handles`. `Connection` promises its invalidations as the target
lists `Coherence.Before` and `Coherence.Behind` that the `Coherence` machine steps through.

Three properties do not hold of the code as one would first state them; each has a concrete run and
its exact condition. A write whose seek fails leaves its payload in the stream
(`Exchange.RefusedSeek`, `Exchange.RefusedWriteStrandsPayload`), after which a closed file may stay
open and a removed file's stat may be cached (`Exchange.StrandedByteMisleads`,
`Exchange.StrandedBytesAgeStat`). So the exchange, the caches and the handles keep their promises in
the runs in which every write is sought successfully or carries no data; there each exchange is one
atomic step (`Exchange.ExchangeIsAtomic`), which is what `Coherence` and `Handles` step by.
The listing of the root is invalidated by no operation on its entries except a move whose other path
is spelled so that its parent is the root (`Coherence.ChangeIsInvalidated`,
`Coherence.RootListingStaysStale`, `Coherence.DoubledSeparatorClearsRoot`). Converting a Unix time
and back fails beyond the 64-bit overflow bound (`Times.UnixRoundTrip`).

Clock readings, the results of system calls, which connections succeed and how many bytes a socket
moves at a time are parameters or arbitrary choices. Where a comment in the source and its code
differ the code is followed: the packed mode byte has no delete-on-close bit
(nandroid_shared/requests.cpp:7-15).

## Model

| member | source | states |
|---|---|---|
| Streams.DataReader.ReadExact | nandroid_shared/serialization.cpp:52-86 | Delivers exactly the next n bytes of (unread buffer ++ stream) and advances by exactly n; fails if and only if fewer than n remain; the same for every chunking of the stream; terminates although a round may copy nothing |
| Streams.DataReader.CopyBuffered | nandroid_shared/serialization.cpp:54-62 | What leaves the buffer followed by what is still unread is what was unread |
| Streams.DataReader.ReadDirect | nandroid_shared/serialization.cpp:64-70 | The bypass moves bytes from the stream to the destination in order and stops below a bufferful or at end of stream |
| Streams.DataReader.Refill | nandroid_shared/serialization.cpp:72-84 | A refill keeps the unread bytes; it fails exactly at end of stream and otherwise leaves something buffered, which is the termination argument |
| Streams.DataReader.constructor | nandroid_shared/serialization.cpp:40-45 | A new reader has unread exactly what its stream will deliver |
| Streams.DataReader.ReadByte | nandroid_shared/serialization.cpp:88-92 | The next unread byte, or end of stream exactly when there is none |
| Streams.DataReader.ReadU16 | nandroid_shared/serialization.cpp:94-98 | The next two bytes as a network-order integer, although a raw host load is what is swapped |
| Streams.DataReader.ReadU32 | nandroid_shared/serialization.cpp:100-104 | The next four bytes as a network-order integer |
| Streams.DataReader.ReadU64 | nandroid_shared/serialization.cpp:106-110 | The next eight bytes as a network-order integer, through the home-made swap |
| Streams.DataWriter.WriteExact | nandroid_shared/serialization.cpp:138-164 | Bytes sent ++ bytes buffered grows by exactly the data, through the buffer, the flushes and the direct-write bypass; terminates with the buffer full on entry |
| Streams.DataWriter.Flush | nandroid_shared/serialization.cpp:133-136 | Everything ever written has been sent and the buffer is empty |
| Streams.DataWriter.constructor | nandroid_shared/serialization.cpp:123-127 | A new writer has written exactly what its stream has been sent |
| Streams.DataWriter.Append | nandroid_shared/serialization.cpp:150-156 | Copying behind the buffered bytes appends them to what was written |
| Streams.DataWriter.WriteByte | nandroid_shared/serialization.cpp:166-168 | Appends the byte |
| Streams.DataWriter.WriteU16 | nandroid_shared/serialization.cpp:170-173 | Appends the two network-order bytes of the value |
| Streams.DataWriter.WriteU32 | nandroid_shared/serialization.cpp:175-178 | Appends the four network-order bytes of the value |
| Streams.DataWriter.WriteU64 | nandroid_shared/serialization.cpp:180-183 | Appends the eight network-order bytes of the value, through the home-made swap |
| Streams.Sink.Write | nandroidfs/Connection.cpp:105-118 | Under any pattern of partial sends, exactly the given bytes go out, in order |
| Wire.HtonllIsNetworkOrder | nandroid_shared/serialization.cpp:10-15 | On a little-endian host the two 32-bit swaps, shifted and or-ed, produce the big-endian bytes of the 64-bit value |
| Wire.HtonllInvolution | nandroid_shared/serialization.cpp:11-18 | The swap is its own inverse, so reading may use the same function |
| Wire.LoadThenSwap | nandroid_shared/serialization.cpp:94-104 | A raw little-endian load followed by the swap is the network-order value, for every width |
| Wire.LoadThenSwap64 | nandroid_shared/serialization.cpp:106-110 | The same for the home-made 64-bit swap |
| Wire.BigEndianRoundTrip | nandroid_shared/serialization.cpp:166-183 | Decoding the network-order bytes of a value that fits gives the value back |
| Wire.FromBigEndianRoundTrip | nandroid_shared/serialization.cpp:88-110 | Encoding what was decoded gives the same bytes back, so the encoding is one to one |
| Wire.BigEndianDigits | nandroid_shared/serialization.cpp:166-183 | Byte i of n has weight 256^(n-1-i): most significant first |
| Messages.PackModeRoundTrip | nandroid_shared/requests.cpp:5-32 | The access bits and the open mode survive the packed byte, for every mode of six bits |
| Messages.BuildHeadInverts | nandroid_shared/requests.cpp:5-119 | Every request type's fields fit their widths and rebuild the same request, signed times sent as unsigned included |
| Messages.HeadRoundTrip | nandroid_shared/requests.cpp:5-119 | Decoding an encoded head in front of anything returns it and consumes exactly its bytes |
| Messages.HeadPrefixFree | nandroid_shared/requests.cpp:5-119 | A head is recognised exactly when its last byte has arrived, never earlier |
| Messages.RequestRoundTrip | nandroid_shared/requests.cpp:5-119 | The same round trip for a head with its payload |
| Messages.RequestsRoundTrip | nandroid_shared/requests.cpp:5-119 | For every list of requests of all kinds, decoding the concatenated encodings returns the list and leaves exactly what follows it |
| Messages.FieldsRoundTrip | nandroid_shared/serialization.cpp:88-192 | For every list of integer and length-prefixed fields, decoding the encoding returns the fields and consumes exactly their bytes |
| Messages.EntriesRoundTrip | nandroidfs/Connection.cpp:174-198 | The listing loop returns exactly the entries before the terminator and consumes exactly up to it |
| Messages.ReplyRoundTrip | nandroid_shared/responses.cpp:6-56 | Decoding an encoded reply, given the request it answers, returns it and consumes exactly its bytes |
| Messages.ReplyPrefixFree | nandroid_shared/responses.cpp:6-56 | A reply is complete exactly when its last byte has arrived |
| Messages.RepliesRoundTrip | nandroid_shared/responses.cpp:6-56 | For every list of replies to a list of requests, decoding the concatenation returns the list and leaves exactly what follows it |
| Codec.HeadLayout | nandroid_shared/requests.hpp:16-56 | Every request head byte for byte: its type number, its fields in order and width, the access bits and the mode in one byte |
| Codec.ReplyLayout | nandroid_shared/responses.cpp:6-56 | Every reply byte for byte |
| Codec.EntryLayout | nandroid_daemon/src/ClientHandler.cpp:112-131 | Every listed and skipped entry byte for byte, and the terminator |
| Codec.WriteText | nandroid_shared/serialization.cpp:185-192 | Refuses a string that does not fit its 16-bit length, with nothing written; otherwise writes the length and the bytes, as the wire format says |
| Codec.ReadText | nandroid_shared/serialization.cpp:112-121 | Follows the wire format's parse of a length-prefixed string: value, bytes consumed and end of stream |
| Codec.WriteOpenHandleArgs | nandroid_shared/requests.cpp:25-32 | Writes exactly the wire format of the struct, the packed byte included |
| Codec.WriteReadHandleArgs | nandroid_shared/requests.cpp:46-50 | Writes exactly the wire format of the struct, in its field order |
| Codec.WriteWriteHandleArgs | nandroid_shared/requests.cpp:64-68 | Writes exactly the wire format of the struct, whose field order differs from the read struct's |
| Codec.WriteMoveEntryArgs | nandroid_shared/requests.cpp:82-86 | Writes exactly the wire format of the struct |
| Codec.WriteTruncateHandleArgs | nandroid_shared/requests.cpp:98-101 | Writes exactly the wire format of the struct |
| Codec.WriteSetFileTimeArgs | nandroid_shared/requests.cpp:115-119 | Writes exactly the wire format of the struct, the signed times as unsigned |
| Codec.ReadOpenHandleArgs | nandroid_shared/requests.cpp:5-16 | Follows the wire format's parse, masks included, in value, bytes consumed and end of stream |
| Codec.ReadReadHandleArgs | nandroid_shared/requests.cpp:34-38 | Follows the wire format's parse of the struct |
| Codec.ReadWriteHandleArgs | nandroid_shared/requests.cpp:52-56 | Follows the wire format's parse of the struct |
| Codec.ReadMoveEntryArgs | nandroid_shared/requests.cpp:70-74 | Follows the wire format's parse of the struct; any non-zero flag byte means overwrite |
| Codec.ReadTruncateHandleArgs | nandroid_shared/requests.cpp:88-91 | Follows the wire format's parse of the struct |
| Codec.ReadSetFileTimeArgs | nandroid_shared/requests.cpp:103-107 | Follows the wire format's parse of the struct, unsigned times read back as signed |
| Codec.SendRequest | nandroidfs/Connection.cpp:349-364 | Type byte, arguments, payload and flush send exactly the request's encoding after everything written before, and leave the buffer empty |
| Codec.ReceiveHead | nandroid_daemon/src/ClientHandler.cpp:403-483 | The daemon's reading of a request follows the wire format's parse: the head, the bytes consumed, end of stream, unknown type |
| Codec.WriteStat | nandroid_shared/responses.cpp:6-11 | Writes exactly the wire format of a stat |
| Codec.ReadStat | nandroid_shared/responses.cpp:27-32 | Follows the wire format's parse of a stat |
| Codec.WriteDisk | nandroid_shared/responses.cpp:52-56 | Writes exactly the wire format of the disk statistics |
| Codec.ReceiveDisk | nandroid_shared/responses.cpp:46-50 | Follows the wire format's parse of the disk statistics |
| Codec.ReadListedEntry | nandroidfs/Connection.cpp:184-185 | Follows the wire format's parse of a listed name and its stat |
| Codec.ReceiveReply | nandroidfs/Connection.cpp:151-156 | The client's reading of a reply follows the wire format's parse for the request it sent: the reply and the bytes consumed |
| Posix.ErrnoNeverSucceeds | nandroid_daemon/src/ClientHandler.cpp:57-75 | No error code maps to Success or to NoMoreEntries |
| Posix.SpliceAt | nandroid_daemon/src/ClientHandler.cpp:274-284 | A write at an offset, byte by byte: the payload where it lies, the old byte elsewhere, zero in the gap; and the resulting length |
| Posix.ResizeAt | nandroid_daemon/src/ClientHandler.cpp:289-296 | A length change, byte by byte: exactly the new length, the old bytes as far as they go, zeros behind them |
| Posix.ReadAtBytes | nandroid_daemon/src/ClientHandler.cpp:243-256 | A read, byte by byte: from the offset on, as many bytes as asked for and there are |
| Posix.SpliceSplit | nandroid_daemon/src/ClientHandler.cpp:274-284 | Two short writes in a row are one long write |
| Posix.ReadSplit | nandroid_daemon/src/ClientHandler.cpp:243-256 | Two short reads in a row are one long read |
| Posix.ReadAfterWrite | nandroid_daemon/src/ClientHandler.cpp:228-287 | Reading where one wrote gives the payload |
| Posix.ReadElsewhere | nandroid_daemon/src/ClientHandler.cpp:228-287 | A write leaves every range it does not touch as it was |
| Posix.WroteMore | nandroid_daemon/src/ClientHandler.cpp:274-284 | A further short write extends a partly written payload, in content, offset and everything left alone |
| Posix.ServedEffect | nandroid_daemon/src/ClientHandler.cpp:177-296 | Every request but a write that was begun and failed has exactly its effect on every file: a successful write splices, a length change resizes, a truncating open empties, anything else, a write refused at its seek included, leaves the file alone |
| Posix.ContentReplays | nandroid_daemon/src/ClientHandler.cpp:177-296 | In every run of the device a file holds exactly what the answered requests on it say, whatever is opened, closed, written, renamed or removed besides, unless a write to it was begun and failed |
| Posix.ReadReplays | nandroid_daemon/src/ClientHandler.cpp:228-261 | A successful read returns exactly file[offset .. min(offset+len, size)] of the replayed file, never more than asked |
| Posix.ReadSeesWrite | nandroid_daemon/src/ClientHandler.cpp:228-287 | After a successful write, with any requests between that spare the file, a read of it through any descriptor returns exactly the requested window of the old content, zero-padded if needed, with the payload spliced in |
| Posix.ReadSeesLength | nandroid_daemon/src/ClientHandler.cpp:289-296 | After a successful length change, with any requests between that spare the file, a read of it through any descriptor returns the old bytes as far as they and the new length go, and zeros behind them |
| Posix.HandleKeepsFile | nandroid_daemon/src/ClientHandler.cpp:403-483 | A descriptor keeps its file through every request, renaming and removal included, until it is closed |
| Posix.RenameMovesFile | nandroid_daemon/src/ClientHandler.cpp:152-156 | A renamed file is found under its new name alone and everything else stays where it was |
| Posix.RenameMovesDirectory | nandroid_daemon/src/ClientHandler.cpp:152-156 | Every file and directory inside a renamed directory is found at its place under the new path, nothing is left at or inside the old one, and everything outside both stays where it was |
| Posix.ChildMeaning | nandroid_daemon/src/ClientHandler.cpp:111-128 | The children of a directory are the next steps to what lies in it, whatever is joined to it by a name is a child by that name, and an empty directory has none |
| Posix.ListingComplete | nandroid_daemon/src/ClientHandler.cpp:98-134 | A listing the device serves reports exactly one entry for itself, its parent and each child; lists only those, none twice, each with its own stat; and all of them if none was skipped |
| Posix.AlwaysServed | nandroid_daemon/src/ClientHandler.cpp:403-483 | Whatever the device's state and the request, some reply is possible |
| Daemon.ReadFully | nandroid_daemon/src/ClientHandler.cpp:239-256 | Under any pattern of short reads, exactly the requested window of the file, cut off at its end; it fails exactly if a read fails |
| Daemon.WriteFully | nandroid_daemon/src/ClientHandler.cpp:274-284 | Under any pattern of short writes, the whole payload is spliced in; it fails exactly if a write fails, and then some prefix is spliced in |
| Daemon.ClientHandler.EnsureRwBufferSize | nandroid_daemon/src/ClientHandler.cpp:92-96 | The transfer buffer holds at least the size and is the old one or a new one |
| Daemon.ClientHandler.HandleReadFile | nandroid_daemon/src/ClientHandler.cpp:228-261 | The device serves the read; data exactly if neither the seek nor a read failed, otherwise the status of that failure; the reply written is its encoding |
| Daemon.ClientHandler.HandleWriteFile | nandroid_daemon/src/ClientHandler.cpp:263-287 | The device serves the write; success exactly if neither the seek nor a write failed; the payload is taken off the stream exactly when the seek succeeds; end of stream exactly when it is then too short |
| Daemon.ClientHandler.HandleOpenHandle | nandroid_daemon/src/ClientHandler.cpp:177-217 | The device serves the open: refusal with neither access, flags for each mode; a descriptor exactly if the call succeeds, otherwise the status of its failure |
| Daemon.ClientHandler.HandleListDirStats | nandroid_daemon/src/ClientHandler.cpp:98-134 | The listing sent is one the device serves, entry by entry with the stat of the joined path; refused exactly if the directory cannot be read; if no stat failed, everything that exists is listed |
| Daemon.ClientHandler.WriteReports | nandroid_daemon/src/ClientHandler.cpp:110-131 | The loop writes one report for each name read, in order, and the terminator |
| Daemon.ListingDelivered | nandroid_daemon/src/ClientHandler.cpp:98-134 | For every directory and every pattern of stat failures, the client's loop stops exactly at the terminator and delivers exactly the entries that could be statted, in order |
| Daemon.ClientHandler.HandleTruncateFile | nandroid_daemon/src/ClientHandler.cpp:289-296 | The device serves the length change; success exactly if the call succeeds |
| Daemon.ClientHandler.HandleClose | nandroid_daemon/src/ClientHandler.cpp:454-459 | The descriptor is gone, nothing else changes, and success is replied |
| Daemon.ClientHandler.HandleMoveEntry | nandroid_daemon/src/ClientHandler.cpp:136-157 | Only a success changes the tree, and then by exactly the rename; without leave to overwrite, whatever exists is answered with FileExists; otherwise success exactly if no call failed |
| Daemon.ClientHandler.HandleRemoveFile | nandroid_daemon/src/ClientHandler.cpp:159-166 | Only a success changes names, and then exactly that name is gone |
| Daemon.ClientHandler.HandleRemoveDirectory | nandroid_daemon/src/ClientHandler.cpp:168-175 | Success only for an empty directory, of which exactly the name is then gone; otherwise nothing changes |
| Daemon.ClientHandler.HandleCreateDirectory | nandroid_daemon/src/ClientHandler.cpp:219-226 | Success only where nothing has the name, which then exactly is a directory; otherwise nothing changes |
| Daemon.ClientHandler.HandleCheckRemoveFile | nandroid_daemon/src/ClientHandler.cpp:345-364 | A path without a parent, such as any top-level entry, is always refused; any other is permitted exactly if its parent is accessible; nothing changes |
| Daemon.ClientHandler.HandleCheckRemoveDirectory | nandroid_daemon/src/ClientHandler.cpp:366-401 | A path without a parent is always refused; otherwise, unless a call fails, success exactly if the directory is empty; nothing changes |
| Daemon.ClientHandler.CanRemoveDirectoryEntry | nandroid_daemon/src/ClientHandler.cpp:345-357 | Access denied without a parent; otherwise success exactly if the access call succeeds, and its failure's status if not |
| Daemon.ClientHandler.HasEntry | nandroid_daemon/src/ClientHandler.cpp:381-393 | The scan finds an entry exactly if some entry is neither the directory itself nor its parent |
| Daemon.ClientHandler.HandleStat | nandroid_daemon/src/ClientHandler.cpp:417-429 | Unless the call fails, success exactly for what exists and FileNotFound exactly for what does not; the kind, the length and the times of what is there; nothing changes |
| Daemon.ClientHandler.HandleSetFileTime | nandroid_daemon/src/ClientHandler.cpp:315-326 | On success each time of the path becomes the requested one, or stays where -1 was sent, and no other path's times change; on failure none do |
| Daemon.SetThenStat | nandroid_daemon/src/ClientHandler.cpp:300-326 | From a Windows time to the device and back: a stat after a successful set-time reports the time rounded down to its second and not before 1970, or the old one where null or zero was given |
| Daemon.ClientHandler.HandleGetDiskStats | nandroid_daemon/src/ClientHandler.cpp:328-340 | The figures are the block size times the free blocks, the available files and all blocks, in wrapping 64-bit arithmetic; nothing changes |
| Daemon.ClientHandler.HandleMessage | nandroid_daemon/src/ClientHandler.cpp:403-483 | One turn of the loop: for every state of the stream, the head is parsed, its payload taken or not, the device serves exactly that request, a refusal comes exactly from a failed call or from the request itself, and exactly the encoded reply has been flushed; end of stream and unknown types as the parse says |
| Exchange.StepKeeps | nandroidfs/Connection.cpp:120-428 | Every step of every thread and of the daemon keeps the protocol's invariant, provided a refused write carries no data |
| Exchange.RunKeeps | nandroidfs/Connection.cpp:120-428 | In every interleaving with that proviso, at every point: the invariant, and the device's history is a run of the requests served so far |
| Exchange.LockFreeMeansQuiet | nandroidfs/Connection.cpp:120-428 | Whenever the request lock is free, all four buffers and both stream directions are empty, and what the threads were told is, in order, exactly what the device served |
| Exchange.OwnReply | nandroidfs/Connection.cpp:120-428 | In every such interleaving each thread gets the daemon's reply to its own request |
| Exchange.ServeKeeps | nandroid_daemon/src/ClientHandler.cpp:403-483 | What the daemon serves is the lock holder's own request, to the last byte |
| Exchange.ReleaseKeeps | nandroidfs/Connection.cpp:151-160 | When the reply is complete everything is at rest again and the reply returned is the one served |
| Exchange.AnswersWereServed | nandroidfs/Connection.cpp:120-428 | At every point, whoever holds the lock, what the threads were told is what the device served first, in order |
| Exchange.ReadAnswersReplay | nandroidfs/Connection.cpp:349-386 | In every such interleaving a read is answered with exactly the requested window of the file as the answered requests on it, of all threads and through any descriptors, leave it, unless a write to it was begun and failed |
| Exchange.ReadAnswersWrite | nandroidfs/Connection.cpp:349-386 | In every such interleaving, after a successful write and any requests of any threads that spare the file, a read of the same file through any descriptor returns exactly the requested window with the payload spliced in |
| Exchange.ReadAnswersLength | nandroidfs/Connection.cpp:366-398 | In every such interleaving, after a successful length change and any requests that spare the file, a read of it returns the old bytes as far as they and the new length go, and zeros behind them |
| Exchange.StepDescends | nandroidfs/Connection.cpp:120-428 | While a request is under way, every step either does nothing or strictly lowers a well-founded measure, so an exchange cannot go on for ever |
| Exchange.NeverStuck | nandroidfs/Connection.cpp:120-428 | No deadlock: while a request is under way whose write, if it is one, can be sought, some step brings its answer nearer, because both sides flush before they read |
| Exchange.ExchangeCompletes | nandroidfs/Connection.cpp:120-428 | From every such point of every run there is a continuation within the proviso in which the holder gets the answer to its request and the lock is free |
| Exchange.RequestIsAnswered | nandroidfs/Connection.cpp:120-428 | Whenever the lock is free, any thread can have any request answered next |
| Exchange.RefusedSeek | nandroid_daemon/src/ClientHandler.cpp:263-287 | When the seek fails, what the daemon decoded is the holder's own head, exactly data_len bytes stay unread, and the invariant survives if and only if that is zero |
| Exchange.ExchangeIsAtomic | nandroidfs/Connection.cpp:120-428 | In every such interleaving, between a thread's taking the lock and its releasing it exactly one request is served, that thread's: the whole exchange is one step of the device, whose reply the thread returns |
| Exchange.RefusedWriteStrandsPayload | nandroid_daemon/src/ClientHandler.cpp:266-269 | A run outside the proviso, for every payload written at a negative offset to a file that is open for writing: the lock is free again and the whole payload is still waiting to be taken for requests |
| Exchange.StrandedByteMisleads | nandroid_daemon/src/ClientHandler.cpp:266-269 | Its continuation: one byte is served as a request nobody made, and a thread closing the handle is told of success although no close was served and the descriptor is still open |
| Exchange.StrandedBytesAgeStat | nandroid_daemon/src/ClientHandler.cpp:266-269 | Another: a thread removes a file and is told of success, and a thread that then asks for its stat is given one served before any removal, which the client would cache |
| TimedCache.TimedCache.constructor | nandroidfs/TimedCache.hpp:65-70 | A new cache is empty, scanned now, with both counters at zero |
| TimedCache.TimedCache.CleanCache | nandroidfs/TimedCache.hpp:46-62 | Erasing while iterating removes exactly the outdated entries |
| TimedCache.TimedCache.GetCached | nandroidfs/TimedCache.hpp:73-88 | The stored value if it is young enough; each look-up is counted once and each hit once |
| TimedCache.TimedCache.Cache | nandroidfs/TimedCache.hpp:91-106 | Stores the value and, only when the last scan is long enough ago, drops exactly what is outdated at the second clock reading |
| TimedCache.TimedCache.Invalidate | nandroidfs/TimedCache.hpp:109-122 | Removes the key and nothing else, whether or not it was there |
| TimedCache.HistoryFaithful | nandroidfs/TimedCache.hpp:46-122 | After every history, each entry is its key's latest store, and a latest store that is missing has expired |
| TimedCache.CleanUpInvisible | nandroidfs/TimedCache.hpp:46-122 | For every history with a clock that never runs backwards, each look-up answers exactly as a map that is never cleaned and only checks age |
| TimedCache.ScanBound | nandroidfs/TimedCache.hpp:91-106 | At every point no entry was older than the validity period at the last scan |
| TimedCache.StoredAge | nandroidfs/TimedCache.hpp:91-106 | After every store no entry is older than the scan interval plus the validity period |
| TimedCache.ScansAreApart | nandroidfs/TimedCache.hpp:91-106 | A scan happens exactly when the last one is longer ago than the interval and drops exactly what is outdated; otherwise a store drops nothing |
| TimedCache.ReportsConsistent | nandroidfs/TimedCache.hpp:73-88 | Under any interleaving of look-ups and statistics readers, reported hits never exceed reported fetches |
| Paths.JoinKey | nandroidfs/conversion.cpp:83-87 | The key of an entry is its directory's converted path joined with the name |
| Paths.ParentIsDirectoryKey | nandroid_shared/path_utils.cpp:15-35 | For every directory and name, the parent of the entry's key is the directory's own key, and is missing exactly for the root |
| Paths.ListedEntryKey | nandroid_shared/path_utils.cpp:7-13 | The key under which a listing stores a stat is the key a later stat looks up, if and only if the listed path does not end in two separators |
| Paths.DesktopIniSpelled | nandroidfs/Connection.cpp:140-145 | The refused name, letter by letter, at the end of any path and of no other |
| Posix.DirectoryModes | nandroidfs/conversion.cpp:28-38 | Which modes mean a directory: the type bits are 0x4000 |
| Coherence.StepKeeps | nandroidfs/Connection.cpp:120-305 | Every step of every thread, look-ups at any time and the two halves of an invalidation included, keeps the freshness invariant of both caches, unless it is a write refused at its seek with data |
| Coherence.RunKeeps | nandroidfs/Connection.cpp:120-305 | The invariant holds at every point of every interleaving in which no write has been refused at its seek with data |
| Coherence.EraseKeeps | nandroidfs/TimedCache.hpp:109-122 | The second half of an invalidation, after anything may have happened since the first |
| Coherence.CheckKeeps | nandroidfs/TimedCache.hpp:109-122 | The first half of an invalidation, which may skip the second |
| Coherence.ActingIsInvalidated | nandroidfs/Connection.cpp:225-305 | A remove, create-directory, move or set-time clears a stat key before its request if and only if it acts on exactly that path |
| Coherence.StatNewerThanLastChange | nandroidfs/Connection.cpp:120-161 | In every interleaving in which no write has been refused at its seek with data, a cached stat was fetched after the last remove, create-directory, move or set-time this client performed on exactly that path; `Exchange.StrandedBytesAgeStat` shows that the proviso is needed |
| Coherence.CachedStatIsCurrent | nandroidfs/Connection.cpp:120-161 | Under the same proviso, if the path's stat changed only by such operations, every cached stat is the device's present stat |
| Coherence.ChangeIsInvalidated | nandroidfs/Connection.cpp:430-435 | A create, remove, move or creating open of an entry clears its directory's listing if and only if the directory is not the root, or the operation is a move whose other path has that directory as parent |
| Coherence.DoubledSeparatorClearsRoot | nandroid_shared/path_utils.cpp:15-35 | The exception is real: a move whose target is spelled with a doubled leading separator clears the root's listing |
| Coherence.ListingNewerThanReturnedChange | nandroidfs/Connection.cpp:163-223 | Under the same proviso, for every directory but the root, once such an operation has returned, no listing is served from names fetched before it |
| Coherence.RootListingStaysStale | nandroid_shared/path_utils.cpp:27-29 | A concrete run: the root is listed, an entry is created in it and the call returns, and the names fetched before are still served |
| Connection.Connection.Ask | nandroidfs/Connection.cpp:293-305 | A request goes out whole and its reply is read to its last byte and no further |
| Connection.Connection.InvalidateParentDir | nandroidfs/Connection.cpp:430-435 | Clears the parent's listing if there is a parent, and nothing else |
| Connection.KeysAreTargets | nandroidfs/Connection.cpp:225-305 | A key is cleared from a cache exactly if it is among the operation's invalidations |
| Connection.CreatingModes | nandroidfs/Connection.cpp:330-335 | The modes that clear the directory's listing are exactly those whose flags can create a file |
| Connection.ChangeOnDeviceIsCleared | nandroidfs/Connection.cpp:225-335 | Whenever the device serves a request of this client and something comes into being or disappears, the operation clears the listing of its parent; for a moved directory this is said of the directory and not of what lies in it |
| Connection.StoredIsFound | nandroidfs/Connection.cpp:156-160 | A stored value is what a look-up finds within the validity period |
| Connection.ListedAgain | nandroidfs/Connection.cpp:163-223 | A listing fetched from the daemon and served again from the caches within the validity period is the same: the same names with the same stats in the same order |
| Connection.Connection.ReqStatFile | nandroidfs/Connection.cpp:120-161 | Nothing is sent if and only if a young enough stat is cached, which is the answer, or the path is desktop.ini, which is refused; otherwise exactly one exchange, and a success, and only that, is stored |
| Connection.Connection.TryUseCachedDirListing | nandroidfs/Connection.cpp:201-223 | A hit exactly if the names are cached and young enough; delivers, for each name in order, its cached stat, and skips exactly those missing or too old |
| Connection.Connection.ReqListFileStats | nandroidfs/Connection.cpp:163-199 | A listing from the caches with nothing sent, or, when the names are not cached, one exchange: the caller gets exactly the statted entries in order, the caches hold exactly these stats and these names besides what they held, and only outdated entries are gone |
| Connection.Connection.ReadAndStoreEntries | nandroidfs/Connection.cpp:179-196 | The loop stops exactly at the terminator, keeps exactly the statted entries and stores each under its full path, the last one winning |
| Connection.Connection.ReqMoveEntry | nandroidfs/Connection.cpp:225-242 | One exchange, with both entries and both directories cleared from the caches before it goes out and nothing else |
| Connection.Connection.ReqRemoveFile | nandroidfs/Connection.cpp:244-256 | One exchange, with the entry and its directory cleared from the caches before it goes out and nothing else |
| Connection.Connection.ReqRemoveDirectory | nandroidfs/Connection.cpp:268-280 | One exchange, with the entry and its directory cleared from the caches before it goes out and nothing else |
| Connection.Connection.ReqCreateDirectory | nandroidfs/Connection.cpp:293-305 | One exchange, with the entry and its directory cleared from the caches before it goes out and nothing else |
| Connection.Connection.ReqOpenFile | nandroidfs/Connection.cpp:307-338 | A request goes out if and only if the path does not end in desktop.ini, which is refused with nothing touched; after the exchange, and not before it, exactly the creating modes clear the directory's listing |
| Connection.Connection.ReqUncached | nandroidfs/Connection.cpp:340-398 | One exchange, with both caches untouched |
| Connection.Connection.ReqReadFromFile | nandroidfs/Connection.cpp:366-386 | One exchange; the caller's buffer holds exactly the reply's bytes from its start, the rest of it unchanged, never more than asked |
| Connection.DaemonNeverOverruns | nandroid_daemon/src/ClientHandler.cpp:258-260 | Every part of every reply the daemon may give to a read announces at most the length asked for, so the caller's buffer is never overrun |
| Connection.Connection.ReqSetFileTime | nandroidfs/Connection.cpp:400-413 | One exchange, with the path's stat cleared from the caches before it goes out and nothing else |
| Handles.FileContext.HandleCreateFile | nandroidfs/operations.cpp:58-127 | The switch, the early returns and the access a POSIX open needs decide whether one open goes out over the connection and which; its reply decides the context and the status |
| Handles.OpenIsServed | nandroid_daemon/src/ClientHandler.cpp:177-217 | Every open of the handle model is one the daemon's message loop serves, in reply and device, so both models speak of the same opens |
| Handles.CloseIsServed | nandroid_daemon/src/ClientHandler.cpp:454-459 | And so is every close |
| Handles.OpenMeans | nandroid_daemon/src/ClientHandler.cpp:192-216 | When a POSIX open with given flags succeeds, refusals by the device included, what the file then holds, and that a refused one changes nothing |
| Handles.ErrorsReachWindows | nandroidfs/conversion.cpp:8-26 | What each error number on the device becomes at the Windows caller |
| Handles.RemoteOpenMeans | nandroid_daemon/src/ClientHandler.cpp:177-217 | When an open succeeds after its way through the packed byte, what its file then holds, and that no other file changes |
| Handles.DispositionMeaning | nandroidfs/operations.cpp:58-127 | For every device state, path, disposition, access and refusal, with an accurate existence flag: a create succeeds exactly when Windows says, the path is no directory, the device does not refuse and the name is not desktop.ini, or when an existing file is opened with neither access; the file then holds what Windows says; otherwise nothing changes; and no other path ever changes |
| Handles.StatusMeaning | nandroidfs/operations.cpp:58-127 | The status of every create, case by case: success, collision, not found, or the status of the device's error |
| Handles.DirectoryMeaning | nandroidfs/operations.cpp:33-57 | What a create answers for directories: an existing one is opened or refused to a caller that wants a file, one is made where nothing is, and the statuses of a missing one and of a file in its place |
| Handles.StatIsAccurate | nandroidfs/operations.cpp:159-177 | The stat a create goes by is accurate when it is served: a regular file, a directory or nothing |
| Handles.DirectoryIsServed | nandroidfs/operations.cpp:33-57 | The directory a create makes is one the daemon's message loop serves, and no descriptor changes |
| Handles.EntryOpens | nandroidfs/operations.cpp:129-197 | A create as a whole, directories included, opens at most one descriptor, the one in its context, with the context's access |
| Handles.NeitherAccessNeverSent | nandroidfs/operations.cpp:103-112 | For every disposition, access and existence flag, an open that is sent asks for some access, and so it reads when the daemon decodes it |
| Handles.CreatesAskForAccess | nandroidfs/operations.cpp:58-157 | In every run in which each write is sought successfully or carries no data, a create either leaves the device alone or does what the daemon does for the one request it sends after its stat, and an open asks for some access |
| Handles.CreateOpens | nandroidfs/operations.cpp:58-127 | A create opens at most one descriptor, new, the one in its context, with the access asked for, or read access where none was; one that opens nothing leaves the sentinel and the device as it was |
| Handles.ServedKeepsTable | nandroid_daemon/src/ClientHandler.cpp:403-483 | Whatever the daemon serves other than an open or a close keeps the descriptor table and each descriptor's access |
| Handles.ServeCreateKeeps | nandroidfs/operations.cpp:146-157 | The served create of any file object keeps the invariant of the handle table |
| Handles.ServeCloseKeeps | nandroidfs/operations.cpp:217-229 | A close is one the daemon serves, on an open descriptor that belongs to this file object alone; afterwards it is gone and the others are untouched, so none is closed twice |
| Handles.DescriptorsAreHandles | nandroidfs/operations.cpp:58-229 | At every point of every run in which each write is sought successfully or carries no data, the descriptors open for the client are exactly the non-sentinel handles of the contexts not yet closed, no two alike; `Exchange.StrandedByteMisleads` shows that the proviso is needed |
| Handles.RequestsUseMatchingAccess | nandroidfs/operations.cpp:243-286 | Under the same proviso, reads and writes only send handles the daemon opened with the matching access, never one of the daemon's own |
| Times.ToUnixIsClamped | nandroidfs/conversion.cpp:60-71 | Despite the wrapping subtraction, the whole second of a file time, clamped at 1970 |
| Times.UnixRoundTrip | nandroidfs/conversion.cpp:46-71 | Unix to file time and back is the identity if and only if the time is at most 1833029933770, the 64-bit overflow bound |
| Times.FiletimeRoundTrip | nandroidfs/conversion.cpp:46-71 | A file time from 1970 on comes back rounded down to its second |
| Times.SetTimeMeaning | nandroidfs/operations.cpp:396-429 | The device leaves a time unchanged if and only if it was null or zero, and otherwise sets the whole second clamped at 1970, which reads back as the original rounded down |
| Times.EpochInDays | nandroidfs/conversion.cpp:40-52 | The epoch difference is 369 years with 89 leap days, and a second has ten million ticks |
| AgentOutput.OverrunHarmless | nandroidfs/Nandroid.cpp:193-195 | A line that runs past its newline answers the ready test as the exact line would, because the message has no newline |
| AgentOutput.Nandroid.HandleDaemonOutput | nandroidfs/Nandroid.cpp:188-217 | After a chunk, ready exactly if it was or if a newly completed line begins with the message; the text after the last newline is kept |
| AgentOutput.ChunkingInvisible | nandroidfs/Nandroid.cpp:188-217 | For every way of cutting the output, ready if and only if some complete line of the whole begins with the message, and the remainder is the text after the last newline |
| Lines.LinesAreTheText | nandroidfs/Nandroid.cpp:190-216 | The complete lines and the rest are the text, cut at its newlines and nowhere else |
| Devices.AddLine | nandroidfs/DeviceTracker.cpp:19-38 | One line adds the serial it announces as authorized, or nothing |
| Devices.ListAuthorizedDevices | nandroidfs/DeviceTracker.cpp:9-42 | The loop returns the serials announced by the complete lines of the output |
| Devices.TableParsed | nandroidfs/DeviceTracker.cpp:9-42 | For every printed table and either line ending, these are exactly the serials whose status is the authorized one |
| Devices.DeviceTracker.ConnectNew | nandroidfs/DeviceTracker.cpp:89-105 | In any order: exactly the listed, unmounted, never failed serials are tried, and each ends mounted or failed |
| Devices.DeviceTracker.DropUnlisted | nandroidfs/DeviceTracker.cpp:107-121 | Exactly the mounted serials that are not listed go |
| Devices.DeviceTracker.UpdateConnectedDevices | nandroidfs/DeviceTracker.cpp:85-122 | The tracker after an update, as a function of the tracker before |
| Devices.UpdateOutcome | nandroidfs/DeviceTracker.cpp:85-122 | A serial is mounted after an update exactly if it is listed and was mounted or, never having failed, connects; it has failed exactly if it had or fails to connect now |
| Devices.UpdateReconciles | nandroidfs/DeviceTracker.cpp:85-122 | After every update of every sequence: mounted ⊆ listed ⊆ mounted ∪ failed |
| Devices.FailedNeverRetried | nandroidfs/DeviceTracker.cpp:89-105 | A serial that failed once stays failed and is never tried again |

## Left out

- Daemon.ClientHandler.HandleStat: the permission bits of the mode are arbitrary, and what reads, writes and moves do to times is not modelled; only set-time states what the times become.
- Handles.StatIsAccurate: paths spelled through `.` or `..` are excluded, since what they name is not modelled; a listing reports these two entries with whatever stat the device gives them.
- Handles.OpenMeans: opening a directory for reading only, which POSIX allows, is modelled as refused; a create stats first and does not ask for it.
- Handles.DescriptorsAreHandles: once a write has been refused at its seek with data, neither `Handles` nor `Coherence` says what a request does or what its reply means; the runs of `Exchange` outside the proviso show what can happen.
- Exchange.StepKeeps: a lost connection or an unknown request type ends the run; what threads see of it is not modelled.
- Coherence.CachedStatIsCurrent: writes, length changes and truncating opens do not clear the stat cache, and moving a directory does not clear its descendants (nandroidfs/Connection.cpp:231-234, 307-338, 349-364, 388-398), so the claim is for stats that change only by operations on exactly that path; for the rest only the age bound `TimedCache.CleanUpInvisible` holds.
- Handles.DispositionMeaning: truncating without write access is undefined in POSIX and is modelled as truncating.
- Connection.Connection.ReqReadFromFile: the daemon's promise not to announce more than asked is a precondition; `Connection.DaemonNeverOverruns` shows that every reply it can give meets it.
- Connection.Connection.ReqStatFile: as for the other requests, paths over 65535 bytes are excluded; the source throws for them after the type byte is already in the buffer.
- Devices.DeviceTracker.UpdateConnectedDevices: does not model the port counter or the Nandroid objects, only which serials are mounted and failed.
- AgentOutput.Nandroid.HandleDaemonOutput: does not model the logged text of each line or the second ready flag, which is set together with the first.
- Lengths that pass through `int` are taken to be below 2^31 and counters do not wrap.
- The daemon's message loop is modelled one turn at a time; the loop itself is the sequence of daemon steps in `Exchange`.
- The halves of `invalidate` are separate steps; each other cache call is one step, since it holds the cache lock throughout.
- Conversion between UTF-8 and UTF-16, socket set-up, process invocation, Dokan mounting, the drive-letter search, the tray menu and logging.
- nandroidfs/StatCache.cpp and nandroidfs/responses.cpp, which the build does not compile.
- Hard links, symbolic links, `.` and `..`, and changes made on the device by others.
- Memory: the contexts of refused creates are never freed by the source; the model does not track allocation.
- Connecting a device by hand, which overwrites an existing entry (nandroidfs/DeviceTracker.cpp:55-76), and unmounting one.
- Volume information, security callbacks and file attributes.
