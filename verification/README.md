# Verification of the SiddTorrent engine

A Dafny model of the parts of SiddTorrent that have to be right for a download to be right, and
proofs about all their inputs and all their runs. `dafny verify dfyconfig.toml` checks the project.

Code that changes state is modelled in its own form: a class with the program's fields, methods
with its loops and branches, each proved against a specification on values. What the program
promises is then proved about that specification, over whole runs. What the program leaves to the
outside (the peer's messages, the outcome of sends, reads and writes, random picks, the order goroutines run
in) is arbitrary input or nondeterministic choice; SHA-1 is an arbitrary function from bytes to
bytes.

- **Bencoding** (BEP 3, section "bencoding"). `BencodeGrammar` defines parse trees, their spelling
  and their value; `BencodeParser` is the decoder's algorithm on positions, sound and complete for
  that grammar; `BencodeEncoding` the canonical encoding and the round trips; `BencodeDecoder` and
  `BencodeEncoder` the cursor-driven decoder with its spans and the buffer-filling encoder.
- **Persistence.** `Pieces` cuts the torrent into pieces, `Metainfo` reads its lengths, `Storage`
  maps one run of bytes onto consecutive files, `DiskModel` is the queue, cache and flush of the
  disk writer as a state machine, `DiskWriter` the writer itself.
- **Scheduling.** `ManagerModel` and `PieceManager` are the mutex-guarded piece manager with its
  bucket index; `Swarm` joins any number of workers, manager, disk writer, resume, playback
  priorities and close into one system whose steps are the program's critical sections;
  `Ownership` says who holds a piece, how often it may fail and when a complete one is downloaded
  again, `Completion` what each step takes and that a download can always be completed,
  `Counterexamples` the runs in which an expected property does not hold; `Runs` builds both.
- **Block pipeline.** `BlockModel` describes the log of one download call, `Outcomes` what a call
  makes of the messages it is sent, `Downloader` is the assembler and the message loop.
- **Kademlia, choking, rate limit.** `XorMetric`, `RoutingModel` and `RoutingTable`; `ChokeModel`
  and `ChokeManager`; `LimiterModel` and `RateLimiter`.
- `Seqs`, `Bytes`, `Ints`, `Strconv` and `Wrappers` hold what several of these share.

Places where the code does not do what one would expect, each with the lemma that shows it and the
lemma that says exactly when:

- Re-encoding is the identity only on canonical input: a `+` sign, or dictionary keys that repeat
  or are out of order, are accepted (`NonCanonicalInputs`; exactly: `ReencodingExact`).
- With playback priorities two workers can hold the same piece (`PriorityShares`; exactly: before a
  call `ClaimSharesExactly`, in a state `RiskExact` and `SharingNext`, along a run
  `SingleHoldingExact`), and a piece already given up can be claimed and fail again without end
  (`PriorityFailsForever`; exactly: `StepFailuresExact`).
- Completing a piece that is still pending, as resume does, takes it out of the bucket index but not
  out of the pending set (`ResumedStillPending`; exactly: `MarkedCompleteInv`, `StepPartitioned`), and
  the next selection lists it again (`SyncExact`): without any priority a worker is handed a piece
  that is complete (`CompletedClaimedAgain`; exactly: `ClaimsCompletedExactly`, `CompletedClaimable`,
  along a run `NothingRedoneExact`).
- A metainfo with both a length and a file list makes the torrent longer than its files (exactly:
  `LengthsAgree`). A write past the last file is cut short without an error (`WriteComplete`), so a
  piece there can be completed, and the close succeed, with its data nowhere (`LostPastTheEnd`;
  exactly: `EndToEndIntegrity`).
- The piece index of a PIECE message is ignored (`IndexIgnored`), so a block sent for another piece
  is returned as data of the one asked for (`ForeignBlockReturned`; exactly: `OwnDataExactly`). A
  block counts as arrived however short it is, so a piece can be complete with bytes that were never
  received and are zeros (`ShortBlockReturned`; exactly: `AllReceivedExactly`).
- With `MaxUploads` below one a peer is unchoked all the same (exactly: `MaxUploadsIsTheBound`), and
  an optimistic peer that earns a slot of its own leaves one empty (exactly: `SlotWastedExactly`). A
  peer that wins a slot in its first round is never sent UNCHOKE, because a connection opens with
  the flag already unchoked (`WinnerNeverTold`; exactly: `RoundTeaches`, `KnowsIffEverChoked`).
- The comment in the scoring code says that 100 ms or less counts as no latency; it costs 0.002 of
  the score (`ScoreWeights`).
- A rate of one to nine bytes a second never refills (`SlowRatesStarve`; exactly:
  `SoleCallerServed`), and a request for a negative number breaks the bucket's bounds (exactly:
  `InvExact`).

## Model

| member | source | states |
|---|---|---|
| Strconv.NumberOfDigits | internal/bencode/encoder.go:41 | the decimal text of a length reads back as that length and has no leading zero |
| Strconv.DigitsOfNumber | internal/bencode/decoder.go:65-94 | a digit text without leading zero is the one text of its number |
| Strconv.ParseInt64Exact | internal/bencode/decoder.go:96-122 | digits read as their number, a '+' in front changes nothing, a '-' negates, within 64 bits; everything else is an error |
| BencodeParser.ParseStringSound | internal/bencode/decoder.go:65-94 | an accepted string is a length, a colon and exactly that many bytes, and those are the bytes consumed |
| BencodeParser.ParseStringComplete | internal/bencode/decoder.go:65-94 | every byte string's spelling is accepted wherever it stands, whatever follows |
| BencodeParser.ParseIntegerSound | internal/bencode/decoder.go:96-122 | an accepted integer's text is legal and is what stood between 'i' and 'e' |
| BencodeParser.ParseIntegerComplete | internal/bencode/decoder.go:96-122 | every legal integer text is accepted and consumed up to its 'e' |
| BencodeParser.ParseValueSound | internal/bencode/decoder.go:45-175 | whatever is accepted is a well-formed tree, and the bytes consumed are exactly its spelling |
| BencodeParser.ParseValueComplete | internal/bencode/decoder.go:45-175 | the spelling of any well-formed tree, at any position and before any bytes, is parsed to that tree and stops at its end |
| BencodeParser.AcceptsExactlyTheGrammar | internal/bencode/decoder.go:28-38 | the decoder accepts an input iff it spells a well-formed tree, and then returns that tree |
| BencodeParser.Unambiguous | internal/bencode/decoder.go:45-175 | no two trees share a spelling and none's spelling begins another's |
| BencodeDecoder.Decoder.ReadByte | internal/bencode/decoder.go:185-189 | yields the byte at the cursor and moves one on |
| BencodeDecoder.Decoder.DecodeValue | internal/bencode/decoder.go:45-63 | value, node, spans, cursor and error are those of the parse at the cursor; reads stay in bounds and it terminates on every input |
| BencodeDecoder.Decoder.DecodeString | internal/bencode/decoder.go:65-94 | same for strings, with each of its four errors |
| BencodeDecoder.Decoder.DecodeInt | internal/bencode/decoder.go:96-122 | same for integers, with each of its errors |
| BencodeDecoder.Decoder.DecodeList | internal/bencode/decoder.go:124-144 | same for lists, recording every item's node |
| BencodeDecoder.Decoder.DecodeDict | internal/bencode/decoder.go:146-175 | same for dictionaries; a later entry replaces an earlier one in values and nodes alike |
| BencodeDecoder.DecodeWithRaw | internal/bencode/decoder.go:28-38 | succeeds iff the whole input is one value; every node is then located in the input |
| BencodeDecoder.NodeLocated | internal/bencode/decoder.go:45-175 | each node's span decodes on its own to the node's value, children's spans lie strictly inside and are pairwise disjoint, at every depth |
| BencodeDecoder.DictNodeAt | internal/bencode/decoder.go:146-175 | a dictionary's node for a key is that of some entry with that key |
| BencodeDecoder.DictNodesMirror | internal/bencode/decoder.go:146-175 | the retained nodes of a dictionary carry exactly its values |
| BencodeDecoder.RawSliceOfDictValue | internal/torrent/parser.go:119-120 | the slice hashed for the info-hash decodes by itself to the dictionary's value under that key |
| BencodeEncoder.Encode | internal/bencode/encoder.go:10-35 | yields the canonical encoding, which decodes back to the value |
| BencodeEncoder.EncodeString | internal/bencode/encoder.go:37-46 | the buffer is the spelling of the byte string |
| BencodeEncoder.EncodeList | internal/bencode/encoder.go:52-65 | the buffer is the canonical encoding of the list |
| BencodeEncoder.EncodeDict | internal/bencode/encoder.go:67-91 | the buffer is the canonical encoding whatever order the map yields its keys in |
| BencodeEncoder.KeysOf | internal/bencode/encoder.go:73-77 | each key of the map once |
| BencodeEncoder.SortStrings | internal/bencode/encoder.go:80 | the same keys in strictly ascending byte order |
| BencodeEncoding.FormatRoundTrip | internal/bencode/encoder.go:48-50 | every int64, extremes included, formats to a legal text without '+' that parses back to it |
| BencodeEncoding.LegalIntegers | internal/bencode/decoder.go:96-122 | the accepted integer texts are exactly the int64s as formatted, and those that begin with a '+' |
| BencodeEncoding.EncodedIsPrinted | internal/bencode/encoder.go:10-91 | an encoding is the spelling of the value's canonical tree |
| BencodeEncoding.CanonicalTreeSpells | internal/bencode/encoder.go:10-91 | the canonical tree is well-formed, canonical and means the value |
| BencodeEncoding.CanonicalTreeUnique | internal/bencode/encoder.go:10-91 | a canonical tree is determined by its value |
| BencodeEncoding.RoundTripWithRemainder | internal/bencode/decoder.go:45-175 | decoding at the start of Encode(v)+rest returns v and stops at exactly the encoding's length, for every v and rest |
| BencodeEncoding.ReencodingExact | internal/bencode/encoder.go:10-91 | for every accepted input, re-encoding gives it back iff all dictionary keys strictly ascend and no integer has a '+' |
| BencodeEncoding.RepresentableValue | internal/bencode/decoder.go:45-175 | decoded values stay within int64 and int lengths |
| BencodeEncoding.EncodedInjective | internal/bencode/encoder.go:10-91 | encodings are always accepted and distinct values have distinct encodings |
| BencodeEncoding.ScalarLayout | internal/bencode/encoder.go:37-50 | the bytes of strings and of small positive and negative integers |
| BencodeEncoding.ListLayout | internal/bencode/encoder.go:52-65 | the bytes of empty containers and of a list of two |
| BencodeEncoding.TwoEntries | internal/bencode/encoder.go:67-91 | a dictionary of two keys is spelled smaller key first |
| BencodeEncoding.TwoKeysChanged | internal/bencode/decoder.go:146-175 | a dictionary whose second key is not greater than its first is accepted and changed by re-encoding |
| BencodeEncoding.NonCanonicalInputs | internal/bencode/decoder.go:96-175 | accepted inputs that re-encoding changes: a '+' sign, a repeated key, keys out of order |
| Pieces.PiecesTile | internal/torrent/pieces.go:25-49 | pieces are non-empty, each begins where the previous ends and the last ends at the total length |
| Pieces.LengthErrors | internal/torrent/pieces.go:13-49 | a length error is reported for exactly the indices that are no piece |
| Pieces.ErrorKinds | internal/torrent/pieces.go:13-49 | which of the length errors is reported |
| Pieces.PieceOfByte | internal/torrent/pieces.go:5-49 | every byte lies in exactly one piece |
| Pieces.SumOfPiecesBound | internal/torrent/pieces.go:5-49 | lengths of any set of pieces sum to at most the total, and to the total only for all of them |
| Pieces.AllStored | internal/torrent/pieces.go:5-49 | a run of bytes has room for every piece iff it is no shorter than the torrent |
| Metainfo.ParseLengths | internal/torrent/parser.go:56-107 | total length and file list of a metainfo: a single-file length and the file list's lengths add up, and a total of zero is an error |
| Metainfo.LengthsAgree | internal/torrent/parser.go:60-107 | the files laid out add up to the torrent's length unless both a nonzero length and file entries are present, and then fall short by that length |
| Storage.TorrentStorage.WriteOverlap | internal/storage/storage.go:131-147 | a file gets exactly its share of the write, or a prefix of it when the disk fails |
| Storage.TorrentStorage.WriteFiles | internal/storage/storage.go:129-150 | across any number of files, exactly the part of the write inside the torrent is laid over the run of bytes |
| Storage.TorrentStorage.WriteAt | internal/storage/storage.go:123-151 | exactly flat[off..off+len) inside the torrent changes, the count is its size, no file changes length, a disk failure leaves exactly a prefix and is the only error |
| Storage.TorrentStorage.ReadOverlap | internal/storage/storage.go:98-114 | the buffer receives a file's share and nothing else changes |
| Storage.TorrentStorage.ReadAt | internal/storage/storage.go:90-121 | the buffer receives the flat bytes; coming up short is the unexpected-EOF error and a disk failure the only other |
| Storage.ReadExact | internal/storage/storage.go:90-121 | a complete read is exactly the slice asked for |
| Storage.WriteComplete | internal/storage/storage.go:123-151 | a write counts all its bytes iff it stays inside the torrent |
| Storage.WritesOverlay | internal/storage/storage.go:123-151 | any chain of successful writes leaves their data laid over the run of bytes in order |
| Storage.ReadAfterWrite | internal/storage/storage.go:90-151 | a complete read after any chain of successful writes yields, byte by byte, the last write that covers it or what was there before; a range just written reads back as written |
| Storage.TruncatedKeeps | internal/storage/storage.go:66-88 | a file cut or grown to a length keeps its bytes up to that length and has zeros beyond its old end |
| Storage.NewTorrentStorage | internal/storage/storage.go:29-88 | files stand end to end from zero with their given lengths, each byte of them the old one or, past the old end, zero; it fails iff some directory or file cannot be opened or a length is negative |
| Storage.LayOut | internal/storage/storage.go:40-85 | the loop over the files builds that layout, stopping at the first file that cannot be opened or sized |
| Storage.OpenedLength | internal/storage/storage.go:78-84 | the files together are as long as their lengths add up to |
| DiskModel.CachedBytesUpdate | internal/disk/writer.go:108-117 | the size bookkeeping of one cache write equals the change of the summed lengths |
| DiskModel.EnqueueChangesView | internal/disk/writer.go:53-70 | an accepted write sets what will be found for its piece and for no other |
| DiskModel.BeginFlushKeepsView | internal/disk/writer.go:130-145 | swapping the cache for a sorted batch changes nothing a reader will find |
| DiskModel.DequeueKeepsView | internal/disk/writer.go:92-100 | nor does moving a request from queue to cache, re-caching included |
| DiskModel.WriteNextKeepsView | internal/disk/writer.go:147-161 | nor does writing one piece of a flush, unless the disk fails |
| DiskModel.PieceWritten | internal/disk/writer.go:152-155 | writing a piece at its offset sets that piece's bytes and no other piece's |
| DiskModel.LoopStepKeepsView | internal/disk/writer.go:84-166 | no step of the writer loop disturbs the view unless the disk fails |
| DiskModel.LoopExact | internal/disk/writer.go:84-158 | each kind of step of the writer loop is possible exactly where the program's loop takes it, so the loop is never stuck |
| DiskModel.LastAcceptedWins | internal/disk/writer.go:53-186 | in every interleaving and for files of any size, until the disk fails the view is the last accepted write of each piece there is room for, and after the loop's end the disk holds exactly that |
| DiskWriter.DiskWriter.constructor | internal/disk/writer.go:41-51 | a new writer shows what is on disk |
| DiskWriter.DiskWriter.WritePiece | internal/disk/writer.go:53-70 | for data of any length: recorded error, closed, full channel or accepted, in that order, and only an accepted request changes anything; data of the piece's length changes the view of that piece alone |
| DiskWriter.DiskWriter.AddToCache | internal/disk/writer.go:108-117 | the newest data replaces the cached one and the size follows |
| DiskWriter.DiskWriter.Flush | internal/disk/writer.go:130-166 | the whole cache reaches the disk, unless a write fails; the view is kept |
| DiskWriter.DiskWriter.WriteBatch | internal/disk/writer.go:146-165 | the rest of a flush is written in order, or abandoned at the first error; the view is kept |
| DiskWriter.DiskWriter.WriteOne | internal/disk/writer.go:148-161 | one piece is written at its offset, or the error is recorded and the rest of the flush abandoned |
| DiskWriter.DiskWriter.Receive | internal/disk/writer.go:92-100 | one request goes to the cache, which is flushed at its limit |
| DiskWriter.DiskWriter.Drain | internal/disk/writer.go:90-96 | after closing, a flush under way is finished and everything queued is flushed before the loop ends |
| DiskWriter.DiskWriter.Close | internal/disk/writer.go:174-186 | at any moment, the first Close reports exactly whether the disk ever failed a write; if not, the disk holds the last accepted write of every piece there is room for; a second does nothing |
| DiskWriter.ReceivedKeepsView | internal/disk/writer.go:97-100 | caching a request keeps the view |
| DiskWriter.WritePieceChecked | internal/storage/writer.go:37-43 | wrong size, recorded error, closed, full channel of 32 or accepted, in that order; an accepted piece is queued and is what a reader will find for that piece alone |
| ManagerModel.SyncExact | internal/piece/manager.go:86-108 | in every state the manager's methods reach, the count-and-checksum test passes iff the index holds every pending piece under its count, and afterwards it always does |
| ManagerModel.TotalIsIndexed | internal/piece/manager.go:87-90 | the summed bucket sizes count each indexed pending piece once |
| ManagerModel.NewManagerInv | internal/piece/manager.go:47-75 | a new manager's index is sound and complete |
| ManagerModel.ClaimInv | internal/piece/manager.go:173-181 | claiming keeps the index sound and complete |
| ManagerModel.IncrementedInv | internal/piece/manager.go:223-235 | an announced piece moves to its new bucket and the checksum follows |
| ManagerModel.DecrementedInv | internal/piece/manager.go:202-219 | a count never goes below zero and the checksum follows, so neither clamp ever loses track |
| ManagerModel.RegisteredInv | internal/piece/manager.go:183-197 | registering a bitfield keeps index and checksum and moves no piece |
| ManagerModel.UnregisteredInv | internal/piece/manager.go:199-221 | so does unregistering one |
| ManagerModel.RegisterCounts | internal/piece/manager.go:183-221 | registering adds one to exactly the counts offered, unregistering takes one from each of them that is positive |
| ManagerModel.RegisterUnregister | internal/piece/worker.go:28-29 | registering a peer and unregistering it with the same bitfield restores every count and the checksum |
| ManagerModel.ReturnedToPendingInv | internal/piece/manager.go:406-418 | handing a piece back lists it again under its count |
| ManagerModel.MarkedFailedInv | internal/piece/manager.go:386-404 | a failure, requeued or final, keeps the index sound and complete |
| ManagerModel.MarkedCompleteInv | internal/piece/manager.go:369-384 | completion leaves the index incomplete exactly when the piece was pending and not yet complete |
| ManagerModel.ClaimsInv | internal/piece/manager.go:237-367 | every way of selecting keeps the invariant, and the bucket-driven ones leave the index complete |
| ManagerModel.FailureLosesNothing | internal/piece/manager.go:386-404 | after a failure each piece still has a place and is given up iff its attempts exceed MaxRetries |
| ManagerModel.CompletionLosesNothing | internal/piece/manager.go:369-384 | so after a completion |
| ManagerModel.ReturnLosesNothing | internal/piece/manager.go:406-418 | so after a return to pending |
| ManagerModel.ClaimLosesNothing | internal/piece/manager.go:173-181 | so after a claim |
| PieceManager.PieceManager.constructor | internal/piece/manager.go:47-75 | everything pending in bucket zero, streaming on with a window of 15 |
| PieceManager.PieceManager.EnsureBucketsSync | internal/piece/manager.go:86-108 | afterwards the index is complete; it is rebuilt iff the test fails |
| PieceManager.PieceManager.Rebuild | internal/piece/manager.go:98-105 | the buckets become the partition of the pending pieces by count |
| PieceManager.PieceManager.MoveBucket | internal/piece/manager.go:163-171 | a piece leaves its old bucket for the new one |
| PieceManager.PieceManager.ClaimPiece | internal/piece/manager.go:173-181 | a piece goes from pending and its bucket to in-progress |
| PieceManager.PieceManager.RegisterPeerBitfield | internal/piece/manager.go:183-197 | the new state is the registration of the bitfield, entry by entry |
| PieceManager.PieceManager.UnregisterPeerBitfield | internal/piece/manager.go:199-221 | the new state is its unregistration |
| PieceManager.PieceManager.IncrementAvailability | internal/piece/manager.go:223-235 | one count up, indices out of range ignored |
| PieceManager.PieceManager.SetStreaming | internal/piece/manager.go:77-84 | the switch is set and the window changes only to a positive size |
| PieceManager.PieceManager.SetPriorityPieces | internal/piece/manager.go:258-267 | afterwards a piece is a priority iff it is among the indices given and in range, and nothing else changed |
| PieceManager.PieceManager.NextPiece | internal/piece/manager.go:237-256 | a wanted priority piece if there is one, in progress or not, else the streaming or rarest choice |
| PieceManager.PieceManager.NextStreamingPiece | internal/piece/manager.go:275-317 | the least pending offered piece inside the window if there is one, else a rarest; error iff nothing is wanted |
| PieceManager.PieceManager.FirstInWindow | internal/piece/manager.go:283-291 | the least wanted piece of the window, or none |
| PieceManager.PieceManager.NextRarestPiece | internal/piece/manager.go:319-349 | a pending offered piece of least availability, error iff there is none; the index is complete afterwards |
| PieceManager.PieceManager.PickRarest | internal/piece/manager.go:326-348 | the walk up the non-empty buckets finds such a piece |
| PieceManager.PieceManager.NextRandomPiece | internal/piece/manager.go:351-367 | some pending offered piece, error iff there is none |
| PieceManager.PieceManager.MarkComplete | internal/piece/manager.go:369-384 | first completion counts the bytes and unlists the piece; pending is left alone |
| PieceManager.PieceManager.MarkFailed | internal/piece/manager.go:386-404 | one more attempt; back to pending, or given up when attempts exceed MaxRetries |
| PieceManager.PieceManager.ReturnPieceToPending | internal/piece/manager.go:406-418 | the piece is pending and listed again |
| PieceManager.PieceManager.CheckComplete | internal/piece/manager.go:420-427 | all complete and nothing given up |
| PieceManager.PieceManager.LoadExistingState | internal/piece/manager.go:110-129 | afterwards a piece is complete iff it was before or is among those scanned and its bytes on disk hash to its twenty bytes of the metainfo; the scan stops only at a piece the files have no room for or a disk error |
| PieceManager.PieceManager.ResumePiece | internal/piece/manager.go:112-127 | one piece of the scan: read in full it is marked complete iff its bytes hash to its entry |
| PieceManager.RarestFound | internal/piece/manager.go:334-346 | with a complete index, a candidate from the lowest bucket that has one is a rarest wanted piece |
| PieceManager.RarestAbsent | internal/piece/manager.go:348 | with no candidate in any bucket nothing is wanted |
| Swarm.StepInvariant | internal/piece/worker.go:28-137 | every step of any worker, the writer loop, resume, priorities or close keeps the whole invariant |
| Swarm.RunInvariant | internal/piece/worker.go:18-138 | the invariant holds in every state of every run |
| Swarm.EndToEndIntegrity | internal/piece/worker.go:82-120 | in every interleaving and for files of any size, once the writer loop ended without a disk error a completed piece is on disk and hashes to its entry in the metainfo iff the files have room for it; with files as long as the torrent, always |
| Swarm.CompletedOnlyGrows | internal/piece/manager.go:369-384 | completed pieces stay completed |
| Swarm.NoPieceLost | internal/piece/worker.go:33-137 | every piece is pending, in progress, complete or given up, never both of the first two, given up iff it failed too often; what is in progress is held, and nothing is once all workers exited |
| Swarm.ByteAccounting | internal/piece/manager.go:369-442 | Downloaded is the summed length of the completed pieces, at most the total, equal to it iff all are complete, which is what IsComplete reports when nothing was given up |
| Swarm.StepDisk | internal/piece/worker.go:105-116 | only an accepted write changes what will be found on disk |
| Swarm.StepPromised | internal/piece/worker.go:82-120 | a piece is promised complete only by an accepted verified write or by being found on disk |
| Swarm.RunSize | internal/storage/storage.go:123-151 | no run changes the size of the files |
| Completion.VerifyExact | internal/piece/verify.go:11-43 | a downloaded piece passes iff the SHA-1 of its data is its twenty bytes of the metainfo, and fails iff it is not or they do not exist |
| Completion.WriteExact | internal/piece/worker.go:105-116 | verified data is queued iff it has the piece's length and the channel is open with room, and is refused iff the length is another, the channel closed or an error recorded |
| Completion.ResumeExact | internal/piece/manager.go:110-129 | resume marks a piece iff it is intact on disk |
| Completion.CanComplete | internal/piece/worker.go:28-137 | whatever content meets the hashes and whatever is on disk, some run completes every piece, gives none up and ends the disk writer without error; files as long as the torrent then hold the content |
| Ownership.StepPriority | internal/piece/manager.go:258-267 | a step replaces the priorities by those demanded, if it is a demand, and otherwise leaves them |
| Ownership.PrioritiesExact | internal/piece/manager.go:258-267 | over every run the priorities are the torrent's pieces among the indices of the latest demand |
| Ownership.DrawnIsDemanded | internal/piece/manager.go:239-249 | a piece drawn as a priority is in the latest demand, so none is drawn after an empty one |
| Ownership.StepCounts | internal/piece/manager.go:183-236 | a piece's count changes by joins, leaves and announcements only, one at a time and never below zero |
| Ownership.StepStreaming | internal/piece/manager.go:77-84 | the streaming switch and window are those last set |
| Ownership.StepSinglyHeld | internal/piece/manager.go:239-249 | a step makes two workers hold one piece, or a held piece pending, iff it is a claim that draws, among the wanted priorities, one that is held |
| Ownership.ClaimExact | internal/piece/manager.go:239-256 | an idle worker can be handed exactly the wanted priorities, the first piece of the window and the rarest pieces, as they stand before the call |
| Ownership.ClaimSharesExactly | internal/piece/manager.go:239-256 | a call can end with two workers on one piece iff, before it, some wanted priority the peer offers is held |
| Ownership.RiskExact | internal/piece/manager.go:239-249 | a state's next step can break single holding iff some worker is idle and some priority that is not complete is held |
| Ownership.SharingNext | internal/piece/worker.go:33-60 | a run in which nothing was shared yet can go on to share a piece in its next step iff its last state is such a one |
| Ownership.SingleHoldingExact | internal/piece/worker.go:33-137 | over every run, resume and priorities included, each piece stays in one pair of hands exactly as long as no claim draws a held priority, and so in every run without states at risk |
| Ownership.OutcomeFailures | internal/piece/manager.go:386-404 | each failure adds one attempt to one piece, and goes beyond MaxRetries+1 iff the piece was already given up |
| Ownership.StepFailuresExact | internal/piece/manager.go:386-404 | a step takes a piece beyond MaxRetries+1 attempts iff it is the failure of a piece already given up |
| Ownership.SingleHolding | internal/piece/worker.go:33-137 | in every run without priorities, resume at any time included, no two workers hold a piece, no held piece is pending, none held or pending is given up, and MarkFailed happens at most (MaxRetries+1) times the piece count |
| Ownership.StepHeldInProgress | internal/piece/manager.go:110-129 | what is held stops being in progress iff resume marks a held piece |
| Ownership.ExclusiveOwnership | internal/piece/worker.go:33-137 | in runs without priorities everything held is in progress exactly as long as resume keeps off held pieces |
| Ownership.InProgressIsHeld | internal/session/session.go:255-275 | then, as when resume ends before workers join, in-progress is exactly what workers hold, each piece one worker |
| Ownership.StepNothingRedone | internal/piece/manager.go:369-384 | a step leaves a complete piece pending or held iff resume completes a piece that is pending or held |
| Ownership.NothingRedoneExact | internal/piece/worker.go:33-137 | over every run without priorities no complete piece is pending or held exactly as long as resume keeps off what is pending or held |
| Ownership.ClaimsCompletedExactly | internal/piece/manager.go:239-256 | a call can hand out a completed piece iff, before it, a completed piece is the first of the window or a rarest one |
| Ownership.CompletedClaimable | internal/piece/manager.go:369-384 | some call can hand out a completed piece iff one is still pending |
| Ownership.StepPartitioned | internal/piece/manager.go:369-384 | without priorities a step breaks the partition into four places iff resume marks a piece that is pending or given up |
| Ownership.FourPlaces | internal/piece/worker.go:33-137 | in a fresh run without resume and priorities Pending, InProgress, Completed and PermanentlyFailed partition the pieces |
| Counterexamples.PriorityShares | internal/piece/manager.go:239-249 | a run in which a priority makes two workers hold one piece |
| Counterexamples.PriorityFailsForever | internal/piece/manager.go:239-249 | for every n, a run in which one piece fails n times |
| Counterexamples.ResumedStillPending | internal/piece/manager.go:369-384 | a run without priorities in which resume leaves a piece both complete and pending |
| Counterexamples.CompletedClaimedAgain | internal/session/session.go:255-275 | a run without priorities in which a worker is handed a piece that resume completed |
| Counterexamples.LostPastTheEnd | internal/storage/storage.go:130-133 | on the files a metainfo with both a length and a file list leads to, a run with a completed piece, a close without error and the data nowhere |
| BlockModel.BlocksTile | internal/piece/assembler.go:20-41 | blocks are non-empty and tile the piece |
| BlockModel.SentGoodLog | internal/piece/downloader.go:49-74 | a request for a block not yet asked for, sent below the limit, keeps everything the log promises |
| BlockModel.WaitedGoodLog | internal/piece/downloader.go:81-85 | so does a wait with a full pipeline |
| BlockModel.GotGoodLog | internal/piece/downloader.go:134-153 | so does any aligned block inside the piece |
| BlockModel.GotTracks | internal/piece/assembler.go:43-62 | after a block the arrays still say what the log says, and the data is the blocks received laid over zeros in order |
| BlockModel.RequestsTile | internal/piece/downloader.go:48-74 | requests are disjoint and cover exactly the bytes of the blocks asked for |
| BlockModel.RequestsAreBlocks | internal/piece/downloader.go:58-74 | each request is for this piece, at a multiple of 16384, for 16384 bytes or what is left of the piece |
| BlockModel.LastBlockShows | internal/piece/assembler.go:43-62 | with exact lengths each block of the piece shows the last block received for it |
| BlockModel.BlocksTell | internal/piece/downloader.go:134-153 | which blocks are there depends only on the blocks received |
| Outcomes.OutcomeDetermined | internal/piece/downloader.go:16-178 | leaving failed sends aside, the messages decide the outcome, data byte by byte or reason, and how many of them are read |
| Outcomes.LastBlocksWin | internal/piece/downloader.go:134-177 | with exact block lengths the data is the concatenation of the last block received per index |
| Outcomes.IndexIgnored | internal/piece/parse_piece.go:49-56 | inputs that differ only in the piece index of PIECE messages have the same outcomes |
| Outcomes.OriginTells | internal/piece/parse_piece.go:49-64 | if each message carries true data of the piece it names, each byte of the result is the true byte of the piece it came from |
| Outcomes.ByteExplained | internal/piece/assembler.go:43-62 | each byte of the result is the byte of the last message to bring it, and zero if none does |
| Outcomes.OwnDataExactly | internal/piece/parse_piece.go:49-64 | all bytes were sent for this piece iff for each byte the last PIECE message taken in that brings it names this piece |
| Outcomes.OwnBlocksExactly | internal/piece/parse_piece.go:49-64 | with exact block lengths that is iff for each block the last PIECE message for it names this piece |
| Outcomes.AllReceivedExactly | internal/piece/assembler.go:54-60 | every byte of the data was received iff for each block some message taken in begins at or before it and reaches its end; the other bytes are zeros |
| Outcomes.TrueData | internal/piece/parse_piece.go:49-64 | if each byte was last brought in this piece's name, from honest messages the data is the piece |
| Outcomes.ForeignBlockReturned | internal/piece/parse_piece.go:49-56 | a block for a one-block piece, sent in the name of any piece, is returned as the data of whichever piece was asked for |
| Outcomes.ShortBlockReturned | internal/piece/assembler.go:54-60 | a block shorter than a one-block piece completes it, the rest of the data being zeros that were never received |
| Downloader.PieceAssembler.constructor | internal/piece/assembler.go:20-32 | nothing requested, nothing received |
| Downloader.PieceAssembler.AddBlock | internal/piece/assembler.go:43-62 | refused iff it begins or ends outside the piece; otherwise laid over the data and its index marked received |
| Downloader.PieceAssembler.IsComplete | internal/piece/assembler.go:64-71 | true iff every block has arrived |
| Downloader.PieceAssembler.NextMissingBlock | internal/piece/assembler.go:73-90 | the least block neither received nor requested, with its exact range, now marked requested |
| Downloader.PieceAssembler.ResetBlock | internal/piece/assembler.go:92-102 | that block may be asked for again; an index out of range is ignored, and offsets just below zero fall to block zero |
| Downloader.PieceAssembler.CountOutstanding | internal/piece/downloader.go:51-56 | counts the requests in flight |
| Downloader.PieceAssembler.ResetOutstanding | internal/piece/downloader.go:91-95 | exactly the blocks received stay marked |
| Downloader.PieceAssembler.QueueRequests | internal/piece/downloader.go:49-74 | requests go out until the limit is in flight or nothing is left to ask for, never beyond |
| Downloader.PieceAssembler.ReceiveBlock | internal/piece/downloader.go:146-153 | an accepted block is in the data and in the log |
| Downloader.PieceAssembler.HandlePiece | internal/piece/downloader.go:134-173 | a refused block ends the call, any other is taken in and the pipeline refilled, whatever its index |
| Downloader.PieceAssembler.HandleMessage | internal/piece/downloader.go:103-173 | a fatal message ends the call for its own reason; any other adds the block it carries and refills the pipeline |
| Downloader.PieceAssembler.ReadOne | internal/piece/downloader.go:82-173 | one turn of the message loop |
| Downloader.PieceAssembler.Fill | internal/piece/downloader.go:76-174 | ends with all blocks, or blames the next message, the end of the input or a failed send |
| Downloader.WaitForUnchoke | internal/piece/downloader.go:180-225 | reads up to the first unchoke, failing only on an invalid HAVE or the end of the input |
| Downloader.DownloadPiece | internal/piece/downloader.go:16-178 | whatever the peer sends: all requests are blocks of this piece, at most the configured number of them (8 if that is not positive) is in flight, none is repeated, the call never waits with nothing in flight and waits only with a full pipeline; the outcome is the one the messages decide, and a failed send is blamed iff there was one |
| Downloader.HandledConsumed | internal/piece/downloader.go:103-173 | a message either ends the call for its own reason or joins those taken in |
| Downloader.WaitStep | internal/piece/downloader.go:81-85 | an incomplete piece with a full pipeline has something in flight |
| XorMetric.BytesLessIsNumeric | internal/dht/kademlia.go:96-105 | the bytewise comparison is the order of the 160-bit numbers, which determine the bytes |
| XorMetric.XorIsMetric | internal/dht/kademlia.go:61-67 | symmetry, identity, triangle inequality, and one identifier per distance |
| XorMetric.BucketIsCommonPrefix | internal/dht/kademlia.go:69-81 | for distinct identifiers the index is the common prefix in bits, that is 159 less the logarithm of the distance |
| XorMetric.HigherBucketIsCloser | internal/dht/kademlia.go:69-81 | anything in a higher bucket is strictly closer than anything in a lower one |
| RoutingModel.AddedMembers | internal/dht/kademlia.go:23-38 | after an Add everyone else is as before, and the newcomer is in with its new address if it was known or there was room |
| RoutingModel.AddedSize | internal/dht/kademlia.go:35-37 | a bucket grows by one only for an unknown contact while it has room |
| RoutingModel.AddedOrder | internal/dht/kademlia.go:23-38 | a known contact moves to the end and the others stay in order; a new one is appended below eight and dropped otherwise |
| RoutingModel.TableAddedOk | internal/dht/kademlia.go:83-89 | an Add keeps at most eight per bucket, right bucket, distinct identifiers, never our own |
| RoutingModel.AddedAllOk | internal/dht/kademlia.go:83-89 | so does any sequence of Adds on a new table |
| RoutingModel.WhatIsKnown | internal/dht/kademlia.go:23-38 | after any run of Adds an identifier heard of is missing only if its bucket is full, and carries the contact heard last |
| RoutingModel.AllDistinct | internal/dht/kademlia.go:92-95 | no identifier twice in the whole table |
| RoutingModel.NoTies | internal/dht/kademlia.go:96-105 | different contacts are at different distances from any target |
| RoutingModel.CutOfSorted | internal/dht/kademlia.go:96-109 | sorting and cutting selects the nearest |
| RoutingModel.NearestUnique | internal/dht/kademlia.go:91-110 | there is only one right answer |
| RoutingTable.ComputeDistance | internal/dht/kademlia.go:61-67 | the bytewise exclusive or |
| RoutingTable.BucketIndex | internal/dht/kademlia.go:69-81 | the position of the first set bit of the distance, 159 for equal identifiers |
| RoutingTable.IsNearer | internal/dht/kademlia.go:97-104 | true iff the first is numerically nearer to the target |
| RoutingTable.SortByDistance | internal/dht/kademlia.go:96-105 | the same contacts in strictly increasing distance |
| RoutingTable.KBucket.Add | internal/dht/kademlia.go:23-38 | a known contact moves to the end, a new one is appended below eight and dropped otherwise |
| RoutingTable.RoutingTable.constructor | internal/dht/kademlia.go:53-59 | 160 distinct empty buckets |
| RoutingTable.RoutingTable.Add | internal/dht/kademlia.go:83-89 | only the bucket of the common prefix changes, our own identifier is ignored, the table invariant holds |
| RoutingTable.RoutingTable.ClosestNodes | internal/dht/kademlia.go:91-110 | min(count, total) contacts in strictly increasing distance, every one left out strictly farther |
| ChokeModel.SlotsBounded | internal/piece/choke_manager.go:27-88 | from the first round that sees an interested peer onward at most max(MaxUploads, 1) peers are unchoked, whatever happens in between |
| ChokeModel.MaxUploadsIsTheBound | internal/piece/choke_manager.go:56-76 | MaxUploads itself bounds such a round iff it is at least one |
| ChokeModel.SamplingIsDrift | internal/piece/choke_manager.go:32-41 | sampling rates changes no flag, tells nobody anything and changes no interest |
| ChokeModel.LastWordStaysTrue | internal/piece/choke_manager.go:78-87 | once a peer has been told anything, the last message agrees with the flag |
| ChokeModel.RoundTeaches | internal/piece/choke_manager.go:78-87 | after a round a peer knows its state iff it had been told something before or the round chokes it |
| ChokeModel.KnowsIffEverChoked | internal/piece/choke_manager.go:78-87 | a peer connected with the default flag knows its state iff it was choked in some state so far |
| ChokeModel.WinnerNeverTold | internal/piece/choke_manager.go:78-87 | a run in which an interested peer gets a slot and is never told |
| ChokeModel.ScoreMonotone | internal/peer/state.go:34-62 | faster and less corrupt never scores lower, and beyond 1 MB/s speed no longer counts |
| ChokeModel.ScoreRewards | internal/peer/state.go:34-62 | more successes or lower latency never score lower |
| ChokeModel.ScoreWeights | internal/peer/state.go:34-62 | what success, speed, latency and corruption are worth, with the defaults for a peer never asked or never timed |
| ChokeModel.SampledAverage | internal/piece/choke_manager.go:32-41 | a sample moves the rate a fifth of the way to what was measured, resets the interval and changes nothing else but the score |
| ChokeModel.ScoreBounds | internal/peer/state.go:34-62 | a score is at most one, and each corrupt piece costs a twentieth |
| ChokeManager.Client.Sample | internal/piece/choke_manager.go:33-40 | 80% history and 20% sample, only when time has passed |
| ChokeManager.Client.Update | internal/piece/choke_manager.go:79-86 | a message goes out exactly when the flag changes, and says so |
| ChokeManager.ChosenIsFair | internal/piece/choke_manager.go:53-76 | the top of the ranking and one optimistic slot: only interested peers, within the slots, every slot filled unless the optimistic peer deserves its slot anyway, and every other unchoked peer scores at least as high as each choked interested one |
| ChokeManager.SlotWastedExactly | internal/piece/choke_manager.go:56-76 | a slot stays empty though there is an interested peer for it iff the optimistic peer is already in the top of the ranking |
| ChokeManager.FreshPickFills | internal/piece/choke_manager.go:64-76 | a freshly picked optimistic peer wastes no slot |
| ChokeManager.ChokeManager.SampleAll | internal/piece/choke_manager.go:32-41 | every client is sampled once |
| ChokeManager.ChokeManager.RankInterested | internal/piece/choke_manager.go:43-55 | exactly the interested peers, by descending score |
| ChokeManager.ChokeManager.Choose | internal/piece/choke_manager.go:56-76 | who to unchoke; the optimistic slot moves only every third round or when its holder is gone, and then every slot is filled |
| ChokeManager.ChokeManager.SendChanges | internal/piece/choke_manager.go:78-87 | exactly the chosen peers end up unchoked, with messages on changes only |
| ChokeManager.ChokeManager.Decide | internal/piece/choke_manager.go:42-87 | from the sampled rates on, a fair round, or no change when nobody is interested |
| ChokeManager.ChokeManager.Evaluate | internal/piece/choke_manager.go:27-88 | a fair round on the sampled rates, or no change when nobody is interested |
| LimiterModel.InvHolds | internal/util/rate_limiter.go:35-73 | in every run tokens stay between zero and the capacity, and nobody waits for more than the capacity |
| LimiterModel.NewLimiterInv | internal/util/rate_limiter.go:18-25 | from construction on, for every rate that is not negative |
| LimiterModel.TickAdds | internal/util/rate_limiter.go:35-42 | a tick adds a tenth of the rate, rounded down, or as much of it as there is room for |
| LimiterModel.StepInv | internal/util/rate_limiter.go:35-73 | a step takes the bucket out of its bounds iff it is a request for a negative number |
| LimiterModel.InvExact | internal/util/rate_limiter.go:35-73 | the bounds hold throughout a run iff no request in it is negative |
| LimiterModel.Conservation | internal/util/rate_limiter.go:35-73 | bytes granted and tokens left never exceed tokens at the start and a tenth of the rate for each tick |
| LimiterModel.Throughput | internal/util/rate_limiter.go:35-73 | over any window with k ticks ten times the bytes granted is at most ten times the capacity and k times the rate, however many callers |
| LimiterModel.SlowRatesStarve | internal/util/rate_limiter.go:37 | below ten bytes a second nothing beyond the tokens at hand is ever granted |
| LimiterModel.TicksNeededIsCeiling | internal/util/rate_limiter.go:64-71 | the number of ticks waited for is the ceiling of (n - tokens) / (rate / 10) |
| LimiterModel.ServedOnTime | internal/util/rate_limiter.go:59-72 | a sole caller is served after exactly that many ticks of a tenth of the rate, capped refills notwithstanding |
| LimiterModel.SoleCallerServed | internal/util/rate_limiter.go:52-73 | a sole caller of an open limiter is ever served iff the tokens are there or the rate is at least ten, for any size |
| LimiterModel.WaitExplained | internal/util/rate_limiter.go:64-73 | a wait ends at the first point at which the tokens are there, of which exactly the request is taken, or the limiter is closed, when nothing is |
| LimiterModel.EnabledAgrees | internal/util/rate_limiter.go:52-73 | what a caller may do in the state machine is what the loop does at that point |
| LimiterModel.WaitIsRun | internal/util/rate_limiter.go:64-73 | a wait of the loop, for any wake-ups, is a run of the state machine to the same state |
| LimiterModel.CloseReleases | internal/util/rate_limiter.go:64-88 | a caller that finds or is woken by a close does not wait on: it leaves without taking anything unless the tokens are there by then |
| RateLimiter.RateLimiter.constructor | internal/util/rate_limiter.go:18-26 | capacity and tokens start at the rate |
| RateLimiter.RateLimiter.Refresh | internal/util/rate_limiter.go:35-42 | a tenth of the rate is added, up to the capacity |
| RateLimiter.RateLimiter.Wait | internal/util/rate_limiter.go:52-73 | outcome and state are those of the waiting specification for any sequence of wake-ups |
| RateLimiter.WaitOn | internal/util/rate_limiter.go:52-55 | an absent limiter limits nothing |
| RateLimiter.RateLimiter.Close | internal/util/rate_limiter.go:75-88 | marks the limiter closed, once or again |

## Left out

- The goroutines themselves: a worker's endless loop is a program counter in `Swarm`, the disk writer's loop the steps of `DiskModel` with `Receive` and `Drain` as their imperative form; data races, context cancellation, shutdown order and stack depth are not modelled.
- DiskWriter.DiskWriter.WritePiece: a full channel returns `Blocked` where the program's caller waits; the invariant is only kept for data of the piece's length, which is all `storage.Writer.WritePiece`, its one caller, lets through (`WritePieceChecked`).
- RoutingTable.RoutingTable.ClosestNodes: does not model a negative count, on which the slice expression of the source fails.
- Downloader.PieceAssembler.ResetBlock: does not model offsets of minus one block and below, on which the program fails.
- RateLimiter.RateLimiter.Wait: the imperative form is for one caller at a time; several callers at once are the events of `LimiterModel`.
- PieceManager.PieceManager.NextPiece: takes both of its critical sections as one; in `Swarm` the priorities, the streaming switch and the selection may be separated by other steps.
- PieceManager.PieceManager.LoadExistingState: reads a piece and marks it in one step of `Swarm`.
- Rates and scores are reals, not floating point.
- BencodeEncoder.Encode: Go's `string` and `[]byte` are one case, as are `int` and `int64`; the panic on other types is ruled out by the type of values.
- Path construction (two entries naming one path), and truncation of files by others while the engine runs.
- The public Flush and SetMaxCacheSize of the disk writer, write-latency metrics, and closing of the underlying files.
- int64 overflow of offsets, lengths and token sums; a negative total length in the piece count.
- Assemblers, NextBlock, the peer blacklist, Stats and the percentage of Progress in the piece manager; counters and deadlines of a client during a download.
- The byte layout of REQUEST, PIECE and HAVE messages, handshake, bitfields, extension and PEX messages: short codecs that would add only easy members. What a message does to a download is modelled.
- Trackers, the DHT message loop, sockets, dialing, the HTTP API, job store, frontend, session wiring and command line.
