# A verified model of the peer kernel's storage, network and statistics core

The kernel downloads a video from HTTP servers and from peers, keeps it in memory and on disk,
and plays it out. This project models the parts of it that carry state over many calls, and
proves what every run of them keeps:

- **The block** (`BlockNode.dfy`, `BlockNodeCodec.dfy`). A block is filled sub-piece by
  sub-piece, handed to the writer, dropped from memory, read back. It keeps a map of sub-pieces,
  one counter per piece and a seven-valued state that repeat each other. The invariant ties them
  together, every call is proved to keep it *if and only if* a condition the caller can see holds,
  and the search for the next missing sub-piece, which trusts the counters, is proved to return
  the least missing index.
- **The on-disk formats** (`Bytes.dfy`, `FileResourceInfo.dfy`, `SecFile.dfy`, `CfgFile.dfy`,
  `ResourceInfoListFile.dfy`). Writing and reading loops are proved against a declarative byte
  layout, and the layout against the reader: records, signed containers and lists of records come
  back as they were written. The digest is an arbitrary function, passed in.
- **The speed meter** (`ByteSpeedMeter.dfy`, `Arithmetic.dfy`). A ring of sixty slots answers every query of every
  run as a meter with a complete log would.
- **The HTTP body receiver and the server's send queue** (`HttpClient.dfy`, `HttpServer.dfy`).
  State machines over calls and completions in any interleaving.
- **Statistics** (`SlotTable.dfy`, `StatisticsCollector.dfy`, `StatisticsReportSender.dfy`). A
  probing table without tombstones, a collector that throws old snapshots away, a queue that posts
  one report at a time.
- **Memory quota, data file, URLs** (`InstanceMemoryConsumer.dfy`, `FileResource.dfy`,
  `UrlCodec.dfy`, `Uri.dfy`).

Most modules have the same shape: the steps as functions on a value, an invariant or an
independent reference over those values with lemmas about whole runs, and a class whose methods
change fields as the source does and are proved to perform exactly those steps. What each step is
for is stated on its own, without reference to how it is computed; formats are fixed by the bytes
of one example each.

Time, the digest function, the order a library sort produces, the outcome of compression, the
bytes a socket delivers and the contents of a snapshot are parameters.

## Where the code is not what it seems to be meant to be

The model follows the code. In each of these places one lemma says exactly when the code does keep
the property one would expect, and another gives an input or a run for which it does not:

- Adding a sub-piece to a saved block over-counts and sends the block back to memory
  (`BlockNodes.AddToSavedBreaksInv`, `BlockNodes.AddingToDiskSpoils`); a reset for downloading
  again does not empty the map (`BlockNodes.ResetKeepsInvIff`, `BlockNodes.ResettingLoadedSpoils`);
  clearing the cache is bounded by the size of the map it shrinks (`BlockNodes.ClearErasesAllIff`,
  `BlockNodes.ClearStopsHalfWay`, `BlockNodes.ClearingStopsEarly`).
- A start behind the end of a block whose last piece is empty is reported as missing
  (`BlockNodes.PhantomIsNotMissing`, `BlockNodes.PhantomIsReached`).
- An unsaved block of a single piece is read back as one on disk with a zero counter
  (`BlockNodeCodec.UnsavedRoundTrip`, `BlockNodeCodec.UnsavedComesBack`).
- Reading a block compares the piece index with the number of pieces the wrong way, adds lengths in
  32 bits and counts words in eight (`BlockNodeCodec.ParseMisbehavesIff`,
  `BlockNodeCodec.WritesPastTheEnd`), and believes any counter (`BlockNodeCodec.ParsedIsValidIff`).
- The one-minute window counts the running second instead of the sixtieth second back
  (`ByteSpeedMeters.MinuteWindowIff`, `ByteSpeedMeters.MinuteIsMissed`); a window longer than the
  clock has run counts nothing, and queries in second zero wrap around
  (`ByteSpeedMeters.WindowIsLogged`, `ByteSpeedMeters.RingAtSecondZero`).
- A receive call while the last read is still outstanding reports completion too early
  (`HttpClients.CompletionIsTrueIff`, `HttpClients.CompleteWithNothing`), and one that asks for
  nothing announces an empty buffer at the wrong place (`HttpClients.RecvKeepsInvIff`,
  `HttpClients.EmptyBufferMisplaced`).
- The loop that should fill up a list of digests has the wrong bound
  (`FileResourceInfos.FilledIff`, `FileResourceInfos.HalfFilled`), and the size tests of the reader
  multiply in 32 bits (`FileResourceInfos.OverrunsIff`, `FileResourceInfos.ListOverruns`).
- Removing a colliding entry from the slot table can hide another one
  (`SlotTables.RunKeepsTightIff`, `SlotTables.CollidingRemovalLeaks`).
- A spec that becomes longer misses what was thrown away under the shorter one, and one that
  comes back misses what was thrown away with it (`StatisticsCollectors.CollectsSameIff`,
  `StatisticsCollectors.LongerSpecMisses`, `StatisticsCollectors.ReturningSpecMisses`).
- A failed post is never let go, so there is no retry and no reordering of servers
  (`StatisticsReportSenders.StuckIffFailed`, `StatisticsReportSenders.OneFailureSticks`).
- The quota guard is the wrong way round (`InstanceMemoryConsumers.QuotaMetIff`,
  `InstanceMemoryConsumers.InstanceMemoryConsumer.EvictsWithRoom`).
- The header cipher stops at a byte that its own letter turns into zero
  (`FileResources.DecryptsIff`, `FileResources.LetterIsLost`).

## Model

| member | source | states |
|---|---|---|
| BlockNodes.New | storage/BlockNode.cpp:20-44 | a new block, empty or completely on disk, satisfies the whole invariant (counters against map, state against completeness, write flag exactly in MEM) |
| BlockNodes.PieceFullIff | storage/BlockNode.cpp:465-472 | the number of cached indices of a piece never exceeds its capacity, and reaches it exactly when every index of the piece is cached; the last piece has its own capacity |
| BlockNodes.SizeIsTotalIff | storage/BlockNode.h:78-81 | the map has `total` entries exactly when it holds every index below `total` |
| BlockNodes.AddKeepsInv | storage/BlockNode.cpp:228-255 | adding to a block that is not saved keeps the invariant, whether the index is new or a duplicate, and including the step to MEM |
| BlockNodes.AddToSavedBreaksInv | storage/BlockNode.cpp:237-249 | adding an uncached index to a saved block always breaks the invariant |
| BlockNodes.LoadKeepsInvIff | storage/BlockNode.cpp:257-276 | loading during READING keeps the invariant exactly when the index is below `total` |
| BlockNodes.ClearKeepsInvIff | storage/BlockNode.cpp:396-419 | clearing the cache keeps the invariant exactly when the block is neither in MEM nor SAVING |
| BlockNodes.FinishKeepsInv | storage/BlockNode.cpp:421-428 | the end of a write keeps the invariant: the counters of a complete block already are the capacities that DISK asks for |
| BlockNodes.ResetKeepsInvIff | storage/BlockNode.cpp:474-483 | a reset keeps the invariant exactly when nothing is cached |
| BlockNodes.StepKeepsInvIff | storage/BlockNode.cpp:228-483 | any call that passes the source's own asserts keeps the invariant exactly when the caller was careful in the stated sense |
| BlockNodes.RunKeepsInv | storage/BlockNode.cpp:228-483 | every run of careful calls, from any block that satisfies the invariant, ends in one that does |
| BlockNodes.RunKeepsInvIff | storage/BlockNode.cpp:228-483 | among all runs that pass the asserts, the invariant holds in every state exactly when every call was careful |
| BlockNodes.AddedIsThere | storage/BlockNode.cpp:228-255 | after adding to an unsaved block exactly one more index is there, with its buffer if it was new; the block is in MEM if that completes it and DOWNLOADING if not; a complete block is left as it is |
| BlockNodes.SavingStarts | storage/BlockNode.cpp:430-458 | a block in MEM becomes SAVING with its buffers and counters; in any other state nothing happens |
| BlockNodes.WritingEnds | storage/BlockNode.cpp:421-428 | a block in SAVING becomes the block of its size that was on disk from the start; in any other state nothing happens |
| BlockNodes.ReadingStarts | storage/BlockNode.cpp:304-315 | a block on DISK becomes READING and nothing else changes; in any other state nothing happens |
| BlockNodes.WrittenCanBeRead | storage/BlockNode.cpp:304-458 | any complete block that is handed over, written and set reading is in READING with nothing in memory and no sub-piece missing |
| BlockNodes.HoldsFirstLoaded | storage/BlockNode.cpp:257-276 | after any loads a block holds for each index the first buffer loaded, its counters are as before, and it is in ALL exactly when everything is there |
| BlockNodes.ClearTakesOnlyPlayed | storage/BlockNode.cpp:396-419 | clearing takes no buffer behind the play point and changes none it leaves; ALL becomes DISK, any other state stays |
| BlockNodes.ClearErasesAllIff | storage/BlockNode.cpp:402-413 | the clearing loop reaches every cached index up to the play point exactly when the last such index plus the number cached below it is less than the size of the map |
| BlockNodes.ClearStopsHalfWay | storage/BlockNode.cpp:402-413 | on a completely cached block only the first half is erased |
| BlockNodes.HandedOverAtMostOnce | storage/BlockNode.cpp:430-458 | in a run without a reset the block goes to the writer at most once, and not at all if it is there already |
| BlockNodes.HoldsFirstOffered | storage/BlockNode.cpp:228-255 | until it is handed over, a block holds index `i` exactly when a buffer was offered for it since it was last erased, and holds the first of those |
| BlockNodes.NeverErased | storage/BlockNode.cpp:396-419 | in a run without clearing no index is ever erased, so the first buffer is the first of the whole run |
| BlockNodes.HeldWasOffered | storage/BlockNode.cpp:228-276 | in any legal run a cached buffer was there before, or was added or loaded for exactly its index |
| BlockNodes.WriterGetsFirstOffered | storage/BlockNode.cpp:430-458 | at the first hand-over of any run from an empty block, new or reset, the map has exactly `total` entries, each the first buffer offered for its index since it was last erased |
| BlockNodes.ResetStartsAnew | storage/BlockNode.cpp:474-483 | a careful reset gives exactly a new block, so what holds from a new block on holds between any two resets |
| BlockNodes.EmptyIsNew | storage/BlockNode.cpp:20-44 | an empty block that satisfies the invariant is the new block of its size |
| BlockNodes.EmptyPieceIsMissing | storage/BlockNode.cpp:339-346 | a zero counter means that the first index looked at in the piece is the least missing one, except for a start behind the end |
| BlockNodes.FullPieceIsHeld | storage/BlockNode.cpp:348-351 | skipping a piece by its counter skips no missing index |
| BlockNodes.PhantomIsNotMissing | storage/BlockNode.cpp:339-346 | the one start the search mishandles is not a missing index |
| BlockNodes.PhantomIsReached | storage/BlockNode.cpp:339-346 | a new block of one sub-piece has such a start |
| BlockNodes.AddingToDiskSpoils | storage/BlockNode.cpp:237-249 | any block on disk goes back to MEM and breaks the invariant when any sub-piece is added |
| BlockNodes.ResettingLoadedSpoils | storage/BlockNode.cpp:474-483 | any block of two or more can be read, loaded with one sub-piece and reset, and is then EMPTY with that sub-piece still in memory |
| BlockNodes.ClearingStopsEarly | storage/BlockNode.cpp:402-413 | a completely loaded block of two, cleared up to its end, keeps the second sub-piece |
| BlockNodes.BlockNode.constructor | storage/BlockNode.cpp:20-44 | the new object is valid and is the new block for its size, with the capacity loop for a block on disk |
| BlockNodes.BlockNode.AddSubpiece | storage/BlockNode.cpp:228-255 | the new state is the specified one, the result tells whether the index was new, and the object stays valid exactly when the block was not saved or nothing was added |
| BlockNodes.BlockNode.LoadSubPieceBuffer | storage/BlockNode.cpp:257-276 | the new state is the specified one and is valid exactly for an index below `total` |
| BlockNodes.BlockNode.SetBlockReading | storage/BlockNode.cpp:304-315 | succeeds exactly in DISK, and keeps the invariant |
| BlockNodes.BlockNode.ClearBlockMemCache | storage/BlockNode.cpp:396-419 | removes exactly the erased indices, recounts an unsaved block, turns ALL into DISK; valid afterwards exactly outside MEM and SAVING |
| BlockNodes.BlockNode.EraseUpTo | storage/BlockNode.cpp:402-413 | the loop with the shrinking bound leaves the map without the closed-form set `Erased`, and counters that agree with it |
| BlockNodes.BlockNode.GetBufferForSave | storage/BlockNode.cpp:430-458 | a block that asks to be written is complete, and every one of its entries is handed out under its own index; otherwise nothing is |
| BlockNodes.BlockNode.OnWriteFinish | storage/BlockNode.cpp:421-428 | performs the step that `WritingEnds` describes; always valid |
| BlockNodes.BlockNode.ResetForReDownload | storage/BlockNode.cpp:474-483 | state EMPTY and zero counters; valid exactly when nothing was cached |
| BlockNodes.BlockNode.GetNextNullSubPiece | storage/BlockNode.cpp:333-372 | finds something exactly when some index from `start` on is missing, and then the least one; the phantom start is the stated exception |
| BlockNodes.BlockNode.Search | storage/BlockNode.cpp:333-372 | the same of the loop that skips by counters |
| BlockNodes.BlockNode.ScanFrom | storage/BlockNode.cpp:354-368 | the inner scan, with its sixteen-bit index, finds the first index that is not in the map |
| BlockNodeCodec.ToBuffer | storage/BlockNode.cpp:168-226 | the bytes written are the specified sequence of entries |
| BlockNodeCodec.WriteAll | storage/BlockNode.cpp:183-221 | the writing loop produces that sequence and never outgrows the doubled buffer |
| BlockNodeCodec.ReadPiece | storage/BlockNode.cpp:77-143 | one turn of the reading loop moves on, stays inside the data, and stores only below the number of pieces |
| BlockNodeCodec.ReadsEntry | storage/BlockNode.cpp:77-143 | reading a written entry stores its counter for a saved block and stops for an unsaved one |
| BlockNodeCodec.Parse | storage/BlockNode.cpp:54-157 | the reading loop computes `Decode`, including its rejections and the cases that leave the buffer |
| BlockNodeCodec.SavedRoundTrip | storage/BlockNode.cpp:54-226 | a saved block comes back as a block on disk of the same size with full counters |
| BlockNodeCodec.UnsavedRoundTrip | storage/BlockNode.cpp:54-226 | an unsaved block comes back as none when it has two pieces or more; with one piece it comes back as an invalid block on disk |
| BlockNodeCodec.ParseMisbehavesIff | storage/BlockNode.cpp:54-157 | for every buffer: the reader leaves its buffers or runs forever exactly when the first entry that is not read into a counter has a length that wraps, more words than an eight-bit counter counts, or a complete piece with an index one too large |
| BlockNodeCodec.ParsedIsValidIff | storage/BlockNode.cpp:54-157 | for every buffer that gives a block: it satisfies the invariant exactly when its size is possible and the last entry read for every piece carries the capacity of the piece |
| BlockNodeCodec.ParseAnswers | storage/BlockNode.cpp:54-157 | for every buffer: exactly when it is refused, when it gives no block and when it gives one, by the first entry that is not read into a counter |
| BlockNodeCodec.BytesOfSmallest | storage/BlockNode.cpp:168-226 | the bytes of the smallest saved and of the smallest unsaved block |
| BlockNodeCodec.WritesPastTheEnd | storage/BlockNode.cpp:89-93 | a buffer of eighteen bytes makes the reader write behind its counters |
| BlockNodeCodec.UnsavedComesBack | storage/BlockNode.cpp:121-153 | the smallest unsaved block comes back as an invalid block on disk |
| ByteSpeedMeters.RingSlot | measure/ByteSpeedMeter.cpp:57-60 | the slot of any of the last sixty seconds shows that second's bytes |
| ByteSpeedMeters.RingMovesOn | measure/ByteSpeedMeter.h:99-112 | clearing the slots of the seconds gone by keeps ring and log in agreement |
| ByteSpeedMeters.RingTakes | measure/ByteSpeedMeter.h:84-89 | adding to the slot of the running second is appending to the log |
| ByteSpeedMeters.SlotsAreLogged | measure/ByteSpeedMeter.h:114-128 | adding slots up is adding up the logged events, as long as no second overflows 32 bits |
| ByteSpeedMeters.WindowIsLogged | measure/ByteSpeedMeter.h:114-128 | a window of `d` below sixty, and that of sixty in the first minute, is exactly the events of seconds `current-d` to `current-1` if and only if the clock has run for longer or nothing was logged before (with the wrapped case of second zero); the window of sixty after that is `current-59` to `current` |
| ByteSpeedMeters.MinuteWindowIff | measure/ByteSpeedMeter.h:114-128 | the window of sixty is the sixty seconds before the running one exactly when both ends carried the same number of bytes |
| ByteSpeedMeters.MinuteIsMissed | measure/ByteSpeedMeter.h:114-128 | a run of one submission and one query over a minute answers zero where the sixty seconds asked for carried everything |
| ByteSpeedMeters.RingSumIsWindow | measure/ByteSpeedMeter.h:114-128 | the sum over the ring is the window over the log, with the slot of the running second standing in at sixty |
| ByteSpeedMeters.RingAtSecondZero | measure/ByteSpeedMeter.h:114-128 | in second zero the 32-bit subtraction wraps, and slot zero is counted for windows of sixteen seconds or more |
| ByteSpeedMeters.SpeedIsRate | measure/ByteSpeedMeter.h:123-127 | the answer is the number of bytes per second, rounded down: over the time since Start for a meter no older than the window, and over the window for an older one |
| ByteSpeedMeters.ElapsedSinceStart | measure/ByteSpeedMeter.h:130-134 | the time is the milliseconds since Start, one when there are none |
| ByteSpeedMeters.AnswerIsRate | measure/ByteSpeedMeter.h:84-134 | every answer of every run in order of time is that rate for the events logged in the window |
| ByteSpeedMeters.ByteSpeedMeter.constructor | measure/ByteSpeedMeter.cpp:11-15 | a stopped meter with an empty log |
| ByteSpeedMeters.ByteSpeedMeter.Clear | measure/ByteSpeedMeter.cpp:17-23 | forgets everything and stays valid |
| ByteSpeedMeters.ByteSpeedMeter.Start | measure/ByteSpeedMeter.cpp:25-35 | starts with an empty log at the given time; a running meter is left alone |
| ByteSpeedMeters.ByteSpeedMeter.Stop | measure/ByteSpeedMeter.cpp:37-45 | a running meter forgets everything and stops |
| ByteSpeedMeters.ByteSpeedMeter.CheckTickCount | measure/ByteSpeedMeter.h:91-97 | the ring follows the clock; a clock that steps back makes it forget, nothing else does |
| ByteSpeedMeters.ByteSpeedMeter.UpdateTickCount | measure/ByteSpeedMeter.h:99-112 | the same for a second that differs from the current one |
| ByteSpeedMeters.ByteSpeedMeter.ClearSlots | measure/ByteSpeedMeter.h:107-108 | zeroes exactly the slots of the seconds gone by |
| ByteSpeedMeters.ByteSpeedMeter.SubmitBytes | measure/ByteSpeedMeter.h:84-89 | one event is appended to the log and the ring still shows it |
| ByteSpeedMeters.ByteSpeedMeter.CalcSpeedInDuration | measure/ByteSpeedMeter.h:114-128 | the answer is the speed for the bytes of the window, a function of the log, the second and the time since Start, which `SpeedIsRate`, `ElapsedSinceStart` and `WindowIsLogged` describe |
| ByteSpeedMeters.ByteSpeedMeter.SumBack | measure/ByteSpeedMeter.h:118-121 | the backward loop in 32-bit arithmetic sums the right slots, also where its bound wraps |
| ByteSpeedMeters.ByteSpeedMeter.Drive | measure/ByteSpeedMeter.h:84-128 | in every run of submits and queries in order of time after Start, all answers are those of a meter that remembers every event |
| HttpClients.Ready | network/HttpClient.hpp:680-697 | after the header, with whatever part of the body came with it, the invariant holds |
| HttpClients.PlacedIsPrefix | network/HttpClient.hpp:733-825 | buffers that are each announced where the last one ended concatenate to a gap-free prefix of the body |
| HttpClients.RecvKeepsInvIff | network/HttpClient.hpp:733-825 | a receive call keeps the invariant exactly unless it asks for nothing while a read is outstanding before the end |
| HttpClients.ReadKeepsInv | network/HttpClient.hpp:835-953 | any completion, success, end of stream, abort or error, keeps the invariant |
| HttpClients.RunKeepsInv | network/HttpClient.hpp:733-953 | so does every interleaving of calls, completions and closing |
| HttpClients.RecvGetsWanted | network/HttpClient.hpp:752-825 | a call on an idle connection before the end, with m the smaller of what is asked for and what is left: one chunk of m bytes is delivered if m are at hand, otherwise one read of m is outstanding; the offset grows by m |
| HttpClients.OtherRecvs | network/HttpClient.hpp:733-750 | on a closed connection nothing happens; at the end "complete" is reported and the connection closed; during a read a call for bytes changes nothing |
| HttpClients.ClosingOnlyCloses | network/HttpClient.hpp:173-193 | closing delivers and reports nothing |
| HttpClients.ReadIsAnswered | network/HttpClient.hpp:835-953 | a completion delivers what came on success and at the end of the stream and nothing otherwise, leaves the connection open only on success, and reports the one code that belongs to it |
| HttpClients.DeliveredIsAsked | network/HttpClient.hpp:733-953 | in every exchange that is still open, the bytes delivered and those of the outstanding read are the sum of what the calls asked for |
| HttpClients.VerdictIsFinal | network/HttpClient.hpp:733-953 | in every exchange at most one verdict is reported, none while the connection is open |
| HttpClients.FirstChunkStandsAt | network/HttpClient.hpp:680-697 | the first bytes are announced at the beginning of the answered range if one was asked for and else at zero; no length means chunked |
| HttpClients.ExchangeIsSafe | network/HttpClient.hpp:680-953 | in every exchange: what was delivered is a prefix of the body, no longer than announced; the two offsets differ by a constant; an outstanding read means an empty response buffer; "complete" means all was delivered, unless a call said so with a read outstanding, and then not all was |
| HttpClients.CompletedMeansDelivered | network/HttpClient.hpp:733-953 | the same about completion from any state of an exchange |
| HttpClients.CompleteWithNothing | network/HttpClient.hpp:740-750 | asking for the whole body and then once more reports completion with nothing delivered |
| HttpClients.EmptyBufferMisplaced | network/HttpClient.hpp:752-785 | asking for half and then for nothing announces an empty buffer where the second half begins |
| HttpClients.CompletionIsTrueIff | network/HttpClient.hpp:740-750 | "complete" said by a call means that the whole body was delivered exactly when no read is outstanding |
| HttpClients.ChunkedCompletionIsTrue | network/HttpClient.hpp:883-941 | a completion says "complete" exactly at the end of a chunked stream, and then everything the peer sent was delivered |
| HttpClients.HttpClient.constructor | network/HttpClient.hpp:680-697 | offsets, length and response buffer as the header leaves them |
| HttpClients.HttpClient.CloseConnection | network/HttpClient.hpp:173-193 | neither connected nor requesting, all else unchanged |
| HttpClients.HttpClient.HttpRecv | network/HttpClient.hpp:733-825 | performs the receive step that `RecvGetsWanted` and `OtherRecvs` describe |
| HttpClients.HttpClient.HandleReadHttp | network/HttpClient.hpp:835-953 | performs the completion step that `ReadIsAnswered` describes |
| HttpServers.HttpServer.constructor | network/HttpServer.cpp:19-25 | not open yet, with nothing submitted |
| HttpServers.HttpServer.Accept | network/HttpAcceptor.cpp:108-120 | an accepted connection is open, with nothing submitted |
| HttpServers.HttpServer.TcpSend | network/HttpServer.cpp:78-99 | the buffer is queued behind the others and written at once exactly when none is in flight; a request to close stays |
| HttpServers.HttpServer.HandleTcpSend | network/HttpServer.cpp:101-139 | the buffer in flight moves to the written ones; the connection ends as drained exactly when a close had been asked for and nothing is left; the request stays |
| HttpServers.HttpServer.RequestClose | network/HttpServer.cpp:141-155 | closes at once exactly when everything submitted was written, otherwise waits |
| HttpServers.HttpServer.CloseNow | network/HttpServer.cpp:157-191 | an open connection ends as forced, a closed one keeps its ending |
| HttpServers.HttpServer.Serve | network/HttpServer.cpp:78-191 | in any interleaving: one write in flight exactly when the queue is not empty, written ++ queued is what was submitted, no request to close is forgotten, no connection drains without one, and with one and neither a failure nor a close it ends as drained exactly when everything submitted was written |
| FileResourceInfos.Reads1 | storage/FileResourceInfo.cpp:215-362 | the version 1 section comes back with the digests as filled up by the writer and url types cut to a byte, and the reader stands behind it |
| FileResourceInfos.Reads7 | storage/FileResourceInfo.cpp:215-523 | the same for all sections up to version 7 |
| FileResourceInfos.RoundTrip | storage/FileResourceInfo.cpp:27-544 | for a record under 2 MB with the announced number of digests, version 8 reading recovers every field and ends at the buffer length |
| FileResourceInfos.OlderVersion | storage/FileResourceInfo.cpp:507-523 | without the last byte and with the length adjusted, versions 6 and 7 read the same record except for the push flag |
| FileResourceInfos.FilledIff | storage/FileResourceInfo.cpp:64-83 | the padding loop, with the wrap of its unsigned bound, produces the announced number of digests exactly when the list was full or empty |
| FileResourceInfos.HalfFilled | storage/FileResourceInfo.cpp:77-83 | one digest of two is not filled up, and no such record comes back |
| FileResourceInfos.TooManyDigests | storage/FileResourceInfo.cpp:77-83 | with more digests than announced the bound wraps and at least 2^31 entries are written |
| FileResourceInfos.RoundTripIff | storage/FileResourceInfo.cpp:27-544 | a record under 2 MB comes back unchanged exactly when all digests are there and every url type fits a byte |
| FileResourceInfos.SomeBytes | storage/FileResourceInfo.cpp:27-209 | the bytes of a record in which every field has a value of its own, so where each field stands |
| FileResourceInfos.AcceptsOnly | storage/FileResourceInfo.cpp:215-240 | nothing is accepted but a buffer of a possible size that begins with its length, under versions 6 to 8 |
| FileResourceInfos.NegativeCountIsNone | storage/FileResourceInfo.cpp:306-311 | a count of urls that is negative is read as none |
| FileResourceInfos.Read1 | storage/FileResourceInfo.cpp:215-362 | whatever bytes it is given, a section that is read to its end has the announced number of digests, url types of one byte, and ends inside the buffer |
| FileResourceInfos.Reserve | storage/FileResourceInfo.cpp:34-44 | the doubling loop ends with room for the section and 256 bytes, less than twice what was needed |
| FileResourceInfos.PutDigests | storage/FileResourceInfo.cpp:64-83 | the two digest loops write the specified list within the reserved room |
| FileResourceInfos.PutUrls | storage/FileResourceInfo.cpp:84-117 | the url loop writes every url within a buffer it keeps growing |
| FileResourceInfos.PutWords | storage/FileResourceInfo.cpp:118-138 | the traffic loop writes every word within the reserved room |
| FileResourceInfos.ToBuffer | storage/FileResourceInfo.cpp:27-209 | the whole writer produces the specified record, length in front, with every copy in range |
| FileResourceInfos.ParseMd5s | storage/FileResourceInfo.cpp:283-297 | the digest loop reads the specified list |
| FileResourceInfos.ParseUrls | storage/FileResourceInfo.cpp:299-362 | the url loop reads the specified list, or fails where the specification fails |
| FileResourceInfos.ParseWords | storage/FileResourceInfo.cpp:370-395 | the traffic loop reads the specified list |
| FileResourceInfos.Parse | storage/FileResourceInfo.cpp:215-544 | the reader computes `Decode` for every input and every version from 6 on, refusals and overruns included |
| FileResourceInfos.OverrunsIff | storage/FileResourceInfo.cpp:283-395 | for every buffer: the reader runs past the end exactly when the count of digests, or else the length of the traffic list, passes its size test by wrapping around in 32 bits |
| FileResourceInfos.ListOverruns | storage/FileResourceInfo.cpp:379-395 | a complete first section followed by an announced list of 2^30 entries makes the reader run past the end |
| HmacMd5s.SplitDoesNotMatter | storage/HmacMd5.cpp:88-109 | however data is split into additions, the digest is taken of key ++ data ++ key, and of the key alone when there is no data |
| HashText.HashFromString | storage/HmacMd5.cpp:41-67 | refuses a text of fewer than 32 characters and leaves the digest alone; otherwise each of the sixteen bytes is read from its pair, a non-digit leaving its half as it was |
| HashText.TextRoundTrip | storage/HmacMd5.cpp:27-67 | the digest read from the text of a digest is that digest, whatever the output held before and whatever follows the text |
| HashText.TextIsLowerCase | storage/HmacMd5.cpp:27-36 | the text is in lower case, the higher digit of each byte first |
| HashText.PairsReadOtherwise | storage/HmacMd5.cpp:41-67 | upper case reads as lower case; what a pair with one digit or none does to the byte |
| SecFiles.SignVerifies | storage/CfgFile.cpp:99-166 | a signed file verifies, for any digest function, and keeps its contents |
| SecFiles.AlteredVerifiesIff | storage/CfgFile.cpp:99-166 | a signed file that is altered in any way with its digest field kept verifies exactly when its version is known and the alteration is a collision of the digest; with the field alone altered it never verifies |
| SecFiles.UnknownVersionRefused | storage/CfgFile.cpp:108-118 | a file of an unknown version does not verify even when it is signed |
| SecFiles.HeaderBytes | storage/CfgFile.h:24-39 | the packed bytes of a header |
| SecFiles.SecFile.SecCreate | storage/CfgFile.cpp:29-55 | a new file holds the packed header with a clear digest field, and the running digest has seen it |
| SecFiles.SecFile.SecWrite | storage/CfgFile.cpp:196-220 | appends unless the file is broken or would reach 32 MB, and the running digest keeps having seen exactly the file |
| SecFiles.SecFile.SecClose | storage/CfgFile.cpp:146-194 | a written file is signed, verifies and keeps its contents; any other file is left alone |
| SecFiles.SecFile.SecOpen | storage/CfgFile.cpp:57-97 | opens exactly the files of at most 32 MB that verify, and stands behind the header |
| SecFiles.SecFile.DoVerify | storage/CfgFile.cpp:99-144 | accepts exactly the files whose version is known and whose digest field is the tag of the cleared file |
| SecFiles.SecFile.DigestOf | storage/CfgFile.cpp:122-132 | feeding the file in pieces of 64 KB gives the digest of the whole cleared file |
| SecFiles.SecFile.SecRead | storage/CfgFile.cpp:222-231 | returns the next bytes, as many as there are, and nothing from a broken file |
| SecFiles.StoreAndLoad | storage/CfgFile.cpp:29-231 | any contents below the limit, written in any split, closed and opened under the same key, verify and read back the same |
| SecFiles.StoreAlterLoad | storage/CfgFile.cpp:29-231 | a file created, written and closed, then replaced by another and opened under the same key: the same file opens, one with another digest alone does not, one with the same digest and another rest opens only on a collision |
| CfgFiles.CfgFile.SecCreate | storage/CfgFile.cpp:310-341 | writes size and name behind the header, or closes the file exactly when they do not fit |
| CfgFiles.CfgFile.SecClose | storage/CfgFile.cpp:343-350 | resets the header accounting and signs a written file |
| CfgFiles.CfgFile.AddContent | storage/CfgFile.cpp:352-367 | appends length and contents exactly when both fit |
| CfgFiles.CfgFile.SecOpen | storage/CfgFile.cpp:241-308 | opens exactly the verifying files of version 7 or 8 that name the resource, and accounts for the length of its header |
| CfgFiles.CfgFile.GetContent | storage/CfgFile.cpp:369-388 | under the two length asserts returns the bytes behind the length field, and nothing from a broken file |
| CfgFiles.CfgLayout | storage/CfgFile.cpp:241-388 | where each field of a file with size, name and contents stands, so that the header accounting makes the length asserts true |
| CfgFiles.SaveAndLoad | storage/CfgFile.cpp:241-388 | create, add, close, open, get: the same size and the same contents |
| CfgFiles.SaveAndLoadOther | storage/CfgFile.cpp:241-308 | opened under any other name the file is refused |
| CfgFiles.CfgHeadBytes | storage/CfgFile.cpp:310-341 | the bytes of size and name |
| ResourceInfoListFiles.KeptAllIff | storage/CfgFile.cpp:393-401 | no record of a list is dropped exactly when all of them together fit |
| ResourceInfoListFiles.KeptIfFits | storage/CfgFile.cpp:393-401 | each record is kept exactly when it fits behind those kept before it |
| ResourceInfoListFiles.GetsItem | storage/CfgFile.cpp:403-431 | a record that stands at the file position is what the next call returns, whatever the object held before |
| ResourceInfoListFiles.LargeIsRefused | storage/CfgFile.cpp:418-421 | a record of more than 10 KB that stands at the file position is refused |
| ResourceInfoListFiles.EndsIff | storage/CfgFile.cpp:403-431 | the end is reported exactly when fewer than four bytes are left; a length that is too small, too large or past the end is refused |
| ResourceInfoListFiles.ListReadsBack | storage/CfgFile.cpp:403-431 | a file that consists of the records of a list gives back that list in order and then ends |
| ResourceInfoListFiles.ResourceInfoListFile.AddResourceInfo | storage/CfgFile.cpp:393-401 | appends exactly the records that fit, one after the other |
| ResourceInfoListFiles.ResourceInfoListFile.GetResourceInfo | storage/CfgFile.cpp:403-431 | one call returns the record, the end, the refusal or the overrun that the bytes at the position call for |
| ResourceInfoListFiles.LoadAll | storage/CfgFile.cpp:403-431 | calling until the end is reported gathers the whole list |
| ResourceInfoListFiles.SaveAndLoad | storage/CfgFile.cpp:393-431 | write a list, close, open, read to the end: the kept records in order, and the whole list when it fits |
| SlotTables.Steps | statistic/StatisticModule.cpp:1046-1058 | the probe passes only over occupied slots of other identifiers and ends at the first that is free or its own |
| SlotTables.AddressStops | statistic/StatisticModule.cpp:1046-1058 | while a slot is free, every probe ends at the identifier or at an empty slot before going around |
| SlotTables.HomeFirst | statistic/StatisticModule.cpp:1046-1058 | an identifier goes to its home slot if that is free or its own, and else to the next slot if that is |
| SlotTables.AttachKeepsInvIff | statistic/StatisticModule.cpp:291-335 | attaching keeps the invariant (count of occupied slots, one free slot, every attached identifier in a slot) exactly for a non-null identifier or a full table |
| SlotTables.DetachKeepsInv | statistic/StatisticModule.cpp:338-367 | detaching always keeps it |
| SlotTables.RunKeepsInv | statistic/StatisticModule.cpp:291-367 | so does every run over non-null identifiers |
| SlotTables.AttachAttaches | statistic/StatisticModule.cpp:291-336 | attaching puts the identifier into the map and into a slot unless the table is full, and touches no other |
| SlotTables.DetachDetaches | statistic/StatisticModule.cpp:338-367 | detaching takes it out of the map and touches no other |
| SlotTables.LastCallDecides | statistic/StatisticModule.cpp:291-367 | after any run in which the table is never full an identifier is attached exactly when the last call for it attached it |
| SlotTables.AttachKeepsTight | statistic/StatisticModule.cpp:1060-1070 | attaching keeps the table tight: occupied slots are exactly where probes for attached identifiers end |
| SlotTables.DetachKeepsTightIff | statistic/StatisticModule.cpp:1072-1082 | detaching from a tight table keeps it tight exactly when no other probe passes over the cleared slot |
| SlotTables.RunKeepsTightIff | statistic/StatisticModule.cpp:291-367 | in every run over non-null identifiers the table stays tight all the way exactly when no detaching clears a slot that a probe for another identifier passes over |
| SlotTables.TightIsUnique | statistic/StatisticModule.cpp:1046-1082 | in a tight table no identifier has two slots |
| SlotTables.CollidingRemovalLeaks | statistic/StatisticModule.cpp:1072-1082 | two colliding identifiers, detached in the order they came, leave one behind with nothing attached |
| SlotTables.StatisticModule.constructor | statistic/StatisticModule.h:307-312 | an empty table is valid |
| SlotTables.StatisticModule.AddressOf | statistic/StatisticModule.cpp:1046-1058 | returns the slot where the probe ends |
| SlotTables.StatisticModule.Probe | statistic/StatisticModule.cpp:1046-1058 | the loop with its step counter takes exactly the specified number of steps |
| SlotTables.StatisticModule.AttachP2PDownloaderStatistic | statistic/StatisticModule.cpp:291-335 | performs the attach step; valid afterwards exactly for a non-null identifier or a full table |
| SlotTables.StatisticModule.DetachP2PDownloaderStatistic | statistic/StatisticModule.cpp:338-367 | performs the detach step, tells whether the identifier was attached, and stays valid |
| StatisticsCollectors.ActiveIsJoin | statistic/StatisticsCollector.cpp:52-71 | the active spec of a resource is the least one that covers every spec given for it, and there is one exactly for the resources named |
| StatisticsCollectors.OrderDoesNotMatter | statistic/CollectionSpec.h:29-43 | order and repetition of specs make no difference to the active ones |
| StatisticsCollectors.ExpireIsFilter | statistic/StatisticsCollector.cpp:192-204 | popping the front while it is too old is filtering the whole deque |
| StatisticsCollectors.SuffixCollectsIff | statistic/StatisticsCollector.cpp:18-40 | a deque without its first snapshots collects the same for a spec exactly when the spec sees none of them |
| StatisticsCollectors.CollectAnswers | statistic/StatisticsCollector.cpp:73-107 | the same of the specified collection |
| StatisticsCollectors.FreshNext | statistic/StatisticsCollector.cpp:18-40 | a snapshot is among those collected exactly when it is less than the length of the spec old |
| StatisticsCollectors.FreshIsSuffix | statistic/StatisticsCollector.cpp:18-40 | in a deque in order of time those are the last ones |
| StatisticsCollectors.ActiveCollectsForAll | statistic/StatisticsCollector.cpp:18-107 | what the active spec collects contains, at its end, everything that each of the specs given for the resource asks for |
| StatisticsCollectors.KeepingShows | statistic/StatisticsCollector.cpp:109-132 | a collector that throws nothing away, whatever becomes of the specs, holds for a resource exactly the snapshots of all timer calls at which it was active |
| StatisticsCollectors.GoneExactly | statistic/StatisticsCollector.cpp:52-204 | in every run with a monotone clock, of all those snapshots the one of call k is gone exactly when some later call m has now_m - now_k >= 1000 * L_m, with L_m the length in force at m, and zero when no spec names the resource then; the rest is there in order |
| StatisticsCollectors.CollectsSameIff | statistic/StatisticsCollector.cpp:18-204 | after every such run and for every spec and time, Collect returns what it would had nothing ever been thrown away exactly when every snapshot that is gone in that sense is too old for the spec |
| StatisticsCollectors.ExpiryIsInvisible | statistic/StatisticsCollector.cpp:18-204 | after every run in which, once there is a snapshot of the resource, it is never asked for more than before (being dropped counts as nothing), now and later, every spec the active one covers collects what it would had nothing ever been thrown away |
| StatisticsCollectors.LongerSpecMisses | statistic/StatisticsCollector.cpp:165-190 | a run of four calls after which the active spec, just lengthened, misses a snapshot it could see |
| StatisticsCollectors.ReturningSpecMisses | statistic/StatisticsCollector.cpp:165-190 | a run of four calls in which a resource is dropped and comes back under the same spec, which then misses a snapshot it could see |
| StatisticsCollectors.StatisticsCollector.CollectFor | statistic/StatisticsCollector.cpp:18-40 | one element for each snapshot younger than the spec, in order, with its info, and its drivers and its downloaders exactly when the spec asks for them |
| StatisticsCollectors.StatisticsCollector.SetActiveCollectionSpecs | statistic/StatisticsCollector.cpp:52-71 | performs the step: new active specs, then expiry |
| StatisticsCollectors.StatisticsCollector.Fold | statistic/StatisticsCollector.cpp:54-68 | the loop over the specs builds the joined map |
| StatisticsCollectors.StatisticsCollector.RemoveExpiredStatistics | statistic/StatisticsCollector.cpp:165-190 | resources without a spec go, the others are trimmed by their own length |
| StatisticsCollectors.StatisticsCollector.ExpireAll | statistic/StatisticsCollector.cpp:165-190 | the same whatever the order in which resources are visited |
| StatisticsCollectors.StatisticsCollector.PopExpired | statistic/StatisticsCollector.cpp:192-204 | the popping loop leaves the specified rest |
| StatisticsCollectors.StatisticsCollector.OnTimerElapsed | statistic/StatisticsCollector.cpp:109-132 | performs the timer step: expiry, then one new snapshot for every active resource |
| StatisticsReportSenders.SkipInvalid | statistic/StatisticsReportSender.cpp:67-78 | after the skipping loop the front of the queue, if any, has attempts left |
| StatisticsReportSenders.FiveAttempts | statistic/StatisticsReportSender.cpp:67-78 | a report tried five times is given up, the one behind it with an attempt left is not |
| StatisticsReportSenders.SendKeepsInv | statistic/StatisticsReportSender.cpp:60-118 | sending keeps the invariant: one post in flight, the front; attempts; queue bound; order of arrival |
| StatisticsReportSenders.AddKeepsInv | statistic/StatisticsReportSender.cpp:38-50 | so does adding a report, also to a full queue |
| StatisticsReportSenders.AnswerKeepsInv | statistic/StatisticsReportSender.cpp:134-173 | so does an answer of either kind, with the servers a permutation of the given ones |
| StatisticsReportSenders.RunKeepsInv | statistic/StatisticsReportSender.cpp:38-173 | so does every run |
| StatisticsReportSenders.TimerPosts | statistic/StatisticsReportSender.cpp:60-118 | with nothing in flight, a server and a report, the front is posted once more, or given up when it does not compress; otherwise nothing happens |
| StatisticsReportSenders.AddAccepts | statistic/StatisticsReportSender.cpp:38-50 | a report is accepted exactly when fewer than ten are pending, and then the sender does what the timer does |
| StatisticsReportSenders.AnswerMoves | statistic/StatisticsReportSender.cpp:134-173 | success counts one for the server and delivers the front; failure moves on to the next server, around the list, which is reordered exactly there |
| StatisticsReportSenders.SuccessIsDelivery | statistic/StatisticsReportSender.cpp:120-151 | in every run with one answer per post the first server has as many successes as there were deliveries, and every other none |
| StatisticsReportSenders.ReportsLeaveInOrder | statistic/StatisticsReportSender.cpp:38-173 | in every run reports leave in order of arrival and once each, the queue holds at most ten, the servers stay a permutation, and no waiting report was tried more than once |
| StatisticsReportSenders.FailureIsFinal | statistic/StatisticsReportSender.cpp:153-172 | once a post has failed, nothing is delivered, dropped or reordered again |
| StatisticsReportSenders.StuckIffFailed | statistic/StatisticsReportSender.cpp:134-173 | with one answer per post, the sender ends stuck exactly when some post failed, and never reorders its servers |
| StatisticsReportSenders.OneFailureSticks | statistic/StatisticsReportSender.cpp:153-172 | one report and one failed post leave the sender stuck with the report |
| StatisticsReportSenders.StatisticsReportSender.constructor | statistic/StatisticsReportSender.cpp:20-28 | no server selected, an empty queue, a zero count for every server |
| StatisticsReportSenders.StatisticsReportSender.AddReport | statistic/StatisticsReportSender.cpp:38-50 | performs the add step |
| StatisticsReportSenders.StatisticsReportSender.SendReportIfAppropriate | statistic/StatisticsReportSender.cpp:60-118 | performs the send step, with the skipping loop |
| StatisticsReportSenders.StatisticsReportSender.OnPostResult | statistic/StatisticsReportSender.cpp:134-173 | performs the answer step |
| InstanceMemoryConsumers.DistanceScoreFalls | storage/InstanceMemoryConsumer.h:32-43 | the score falls with the distance, from the base at the play point to one out of range |
| InstanceMemoryConsumers.WithinRange | storage/InstanceMemoryConsumer.h:32-43 | within range the score is the base times what is left of the range, divided by the range and rounded down, but at least one |
| InstanceMemoryConsumers.DownloadingCounts | storage/InstanceMemoryConsumer.cpp:162-189 | being downloaded adds exactly one |
| InstanceMemoryConsumers.ScoresOfSome | storage/InstanceMemoryConsumer.cpp:12-46 | the scores of a block before two play points, of one just played, and which blocks are wanted and most wanted |
| InstanceMemoryConsumers.OrderDoesNotMatter | storage/InstanceMemoryConsumer.cpp:113-160 | the relevance of a block depends on the multiset of play points only |
| InstanceMemoryConsumers.PositiveIff | storage/InstanceMemoryConsumer.cpp:172-189 | a score is positive exactly when the block is being downloaded or some play point is at or before it |
| InstanceMemoryConsumers.FindMostRelevantPlayPointIndex | storage/LiveInstanceMemoryConsumer.h:30-41 | the index up to which, and beyond which not, sorted play points are at or before the block |
| InstanceMemoryConsumers.GetPlayPointsRelevanceScore | storage/InstanceMemoryConsumer.cpp:132-160 | the downward loop over sorted points sums the scores of all points of the unsorted list |
| InstanceMemoryConsumers.BuildBlocksImportanceScore | storage/InstanceMemoryConsumer.cpp:172-189 | exactly the cached blocks get a score, each the sum over all play points plus its downloading bonus |
| InstanceMemoryConsumers.BlocksQuotaIsLeast | storage/InstanceMemoryConsumer.cpp:97-111 | the quota in blocks is the least number of blocks that covers the quota |
| InstanceMemoryConsumers.NoQuota | storage/InstanceMemoryConsumer.cpp:97-111 | without a quota or without a block size it is none |
| InstanceMemoryConsumers.QuotaMetIff | storage/InstanceMemoryConsumer.cpp:77-81 | the wanted blocks end up cut down to the quota exactly when there are as many as the quota or none; blocks are taken away exactly when there are fewer than the quota |
| InstanceMemoryConsumers.EvictedAreLowest | storage/InstanceMemoryConsumer.cpp:81-93 | a prefix of the ranking is a set of that many distinct blocks, none scoring above any of the rest |
| InstanceMemoryConsumers.InstanceMemoryConsumer.GetMemoryUsage | storage/InstanceMemoryConsumer.cpp:12-46 | desirable and minimum sizes are those of the sets of wanted and of most wanted blocks |
| InstanceMemoryConsumers.InstanceMemoryConsumer.SetMemoryQuota | storage/InstanceMemoryConsumer.cpp:48-95 | only cached blocks go, no block that stays scores lower than one that went, how many wanted blocks are left, when that is what the quota asks for, and that wanted blocks go exactly when there is room for more |
| InstanceMemoryConsumers.InstanceMemoryConsumer.EvictsWithRoom | storage/InstanceMemoryConsumer.cpp:77-94 | one wanted block under a quota of two is evicted |
| InstanceMemoryConsumers.InstanceMemoryConsumer.Rank | storage/InstanceMemoryConsumer.cpp:54-75 | unwanted blocks are evicted, the wanted ones are ranked, each once and by score |
| InstanceMemoryConsumers.InstanceMemoryConsumer.EvictLowest | storage/InstanceMemoryConsumer.cpp:81-93 | the given number of wanted blocks go, none scoring above one that stays |
| FileResources.GrowthMakesRoomIff | storage/FileResource.cpp:378-402 | the new size lies between the old one and the limit, and makes room exactly when what is needed is within the limit |
| FileResources.GrowsInSteps | storage/FileResource.cpp:378-402 | the file grows in whole steps of 2 MB and less than a step more than needed, unless it stops at the limit |
| FileResources.ReadChunks | storage/FileResource.cpp:241-261 | the chunks are full sub-pieces but for a non-empty last one, and concatenate to exactly the range asked for; when the file ends before that, the chunks stop with the one the end falls into |
| FileResources.FileResource.WriteBufferArray | storage/FileResource.cpp:361-424 | an in-range write succeeds, lands where it should, leaves other bytes alone, keeps needed <= actual <= limit, and reports exactly the growth; a write of nothing only grows the file |
| FileResources.FileResource.ReadBufferArray | storage/FileResource.cpp:221-267 | nothing for a range past the end, otherwise the range in sub-pieces behind the header, cut short where the file is |
| FileResources.WriteThenRead | storage/FileResource.cpp:221-424 | what is written within the resource is what is read back |
| FileResources.DecryptsIff | storage/FileResource.cpp:426-448 | decrypting an encrypted buffer gives it back exactly when the letter q does not occur before its first zero |
| FileResources.LetterIsLost | storage/FileResource.cpp:426-448 | the buffer of the one letter q comes back as a zero |
| FileResources.CryptIs | storage/FileResource.cpp:426-448 | byte by byte: changed by the letter before the first zero, the same from there on |
| FileResources.BufEncrypt | storage/FileResource.cpp:426-436 | in place, every byte before the first zero is changed and nothing else |
| UrlCodec.RoundTrip | network/UrlCodec.cpp:20-64 | decoding an encoded string gives it back, for every byte string |
| UrlCodec.Alphabet | network/UrlCodec.cpp:44-64 | an encoded string consists of letters, digits and percent signs |
| UrlCodec.PlainStays | network/UrlCodec.cpp:44-64 | letters and digits are encoded as themselves |
| UrlCodec.OtherIsEscaped | network/UrlCodec.cpp:44-64 | any other byte becomes a percent sign and its two digits in upper case, the higher one first |
| UrlCodec.EncodeSplits | network/UrlCodec.cpp:44-64 | strings are encoded byte by byte |
| UrlCodec.OthersDecodeAsTheyAre | network/UrlCodec.cpp:20-42 | what is no plus sign and no complete escape is decoded as itself, and a plus sign as a space |
| UrlCodec.EitherCase | network/UrlCodec.cpp:10-42 | escapes are read in upper and in lower case |
| UrlCodec.EncodeLoop | network/UrlCodec.cpp:44-64 | the loop computes the encoding |
| UrlCodec.DecodeLoop | network/UrlCodec.cpp:20-42 | the loop, with its look-ahead of two, computes the decoding, malformed escapes included |
| Uris.Hit | network/Uri.h:155-173 | a key at the front of the query yields its encoded value |
| Uris.Miss | network/Uri.h:155-173 | a pair with another key is passed over, although one key may end in the other |
| Uris.LooksUp | network/Uri.h:155-173 | a key yields the encoded value of its first pair, or nothing when there is none |
| Uris.FindsQuery | network/Uri.h:200-289 | the query of a well-formed URL, with or without a port, is everything behind the question mark |
| Uris.FindsEveryPart | network/Uri.h:200-289 | in any well-formed scheme://host:port/directory/file?query#fragment, port and fragment optional, every part is found where it stands |
| Uris.QueryEndsAtFragment | network/Uri.h:175-181 | its query is what stands between question mark and fragment |
| Uris.PathIsAppended | network/Uri.h:200-289 | a URL without a path gets one and has no query |
| Uris.NoProtocol | network/Uri.h:200-289 | without a colon there is no protocol and no port, and the host is in front |
| Uris.ParameterRoundTrip | network/Uri.h:155-289 | encode the values, join the pairs behind a well-formed URL, parse, look up, decode: each key gives back the value it was first given |
| Uris.Uri.constructor | network/Uri.h:200-289 | the positions are those of the specification |
| Uris.Uri.ParseHost | network/Uri.h:200-289 | protocol, host and port are found as specified |
| Uris.Uri.ParseUrl | network/Uri.h:200-289 | all positions are found as specified, a missing path being appended |
| Uris.Uri.GetParameterOf | network/Uri.h:155-181 | the lookup on the parsed positions is the specified one, also when a fragment stands before the query |

## Left out

- BlockNodes.BlockNode.GetNextNullSubPiece: for blocks of fewer than 65536 sub-pieces, because the sixteen-bit scan index does not end otherwise.
- BlockNodes.BlockNode.Search: the same bound.
- BlockNodes.BlockNode.constructor: for at most 0xFFFFFF80 sub-pieces and at least one, because the piece count wraps in 32 bits beyond that.
- BlockNodes.BlockNode.GetBufferForSave: the switch over the state is reduced to the case MEM, the only one the invariant lets it reach.
- BlockNodeCodec.ToBuffer: for fewer than 65536 pieces, which is what the entry's index can hold; the intended byte sequence, not the unallocated buffer length.
- ByteSpeedMeters.ByteSpeedMeter.CheckTickCount: the 32-bit counter of seconds does not wrap around within the same minute.
- ByteSpeedMeters.ByteSpeedMeter.CalcSpeedInDuration: windows of 1 to 60 seconds, which covers the four entry points.
- HttpClients.HttpClient.HttpRecv: the requested end stays below 2^32, so that the offset sum does not wrap; a listener that calls back from inside a delivery is a later call here.
- HttpServers.HttpServer.Accept: what else the acceptor does; reading requests is not part of this model either.
- FileResourceInfos.ToBuffer: for a buffer that stays within the bounds of the checked copy, which leaves out lists with more digests than announced (`TooManyDigests`).
- FileResourceInfos.Parse: versions 6 and up; earlier ones carry wide-character names. Sizes have 32 bits, also where the compiler would give them 64.
- FileResourceInfos.PutDigests: no more digests than announced; `TooManyDigests` says what the loop does otherwise.
- ResourceInfoListFiles.ResourceInfoListFile.GetResourceInfo: versions 6 and up, like the record.
- FileResourceInfos.Reads1: the 28 bytes of the resource identifier are taken as identifier, length, block count and block size; the structure itself is declared elsewhere.
- SecFiles.SecFile.SecWrite: buffers shorter than 2^32 bytes less the file limit; failures of the file system are not part of this model.
- SecFiles.SecFile.SecCreate: the file system always creates the file; the clock is a parameter.
- CfgFiles.CfgFile.SecOpen: versions 6 and up; earlier ones carry wide-character names.
- ResourceInfoListFiles.ResourceInfoListFile.AddResourceInfo: records of at most 10 KB that can be read back; larger ones are written and then refused by the reader (`LargeIsRefused`).
- SlotTables.StatisticModule.AttachP2PDownloaderStatistic: the statistics object that is created beside the slot is not part of this model, nor are the tables of download drivers.
- StatisticsCollectors.ExpiryIsInvisible: for runs in which the resource is never asked for more than before; `CollectsSameIff` says for all runs when it holds, and `LongerSpecMisses` and `ReturningSpecMisses` give runs in which it does not.
- StatisticsCollectors.StatisticsCollector.OnTimerElapsed: what a snapshot contains is a parameter, one for every active resource.
- StatisticsReportSenders.StatisticsReportSender.OnPostResult: the order that sorting the servers gives is a parameter, constrained to a permutation by falling success count.
- StatisticsReportSenders.StatisticsReportSender.SendReportIfAppropriate: whether the data compresses is a parameter; the address of the request is not built.
- InstanceMemoryConsumers.InstanceMemoryConsumer.SetMemoryQuota: the play points come sorted, as a permutation of the given ones; a removal from the cache is a removal from a set.
- FileResources.FileResource.WriteBufferArray: reopening of the file handle and failures of the file system.
- BlockNodes.BlockNode.ScanFrom: the same bound of 65536 as for the search.
- ByteSpeedMeters.ByteSpeedMeter.UpdateTickCount: the same as for `CheckTickCount`.
- ByteSpeedMeters.ByteSpeedMeter.SubmitBytes: the same as for `CheckTickCount`.
- Uris.Uri.ParseUrl: the positions of the port's end and of the request, which repeat others, and the methods that replace parts of a URL.
- Timers of access, validity of single sub-pieces and the average speed since the start: counters with easy properties only.
- HTTP headers, requests and responses, resolving, accepting, connecting and their timers: calls into libraries and sockets.
- MD5, gzip, XML and the text form of identifiers: foreign code; the digest is an arbitrary function here.
- The storage facade, the space and sub-piece managers, peers, scheduling and the application modules above them.
