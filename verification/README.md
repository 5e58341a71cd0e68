# Verified model of the librtbit download core

This project models, in Dafny, how librtbit decides what to download, where the bytes go, and
how it reads messages, and proves what those parts promise each other.

| file | models |
|---|---|
| `Prelude.dfy`, `Lengths.dfy`, `Files.dfy` | rounding and sums; how a torrent is cut into pieces and chunks; the files laid end to end and the request order inside a file |
| `ChunkState.dfy`, `Offers.dfy`, `ChunkTracker.dfy` | the chunk tracker: four bit fields and two caches kept in step with them; the order in which queued pieces are offered |
| `TrackerState.dfy`, `FileCounts.dfy`, `ChunkRuns.dfy` | the download state as a state machine, and theorems over whole runs |
| `DownloadTasks.dfy` | concurrent download tasks: which pieces stall, and when each piece has one status |
| `Acquire.dfy`, `PieceTracker.dfy` | handing pieces to peers, stealing, releasing, verdicts, pausing |
| `Streaming.dfy`, `Interleave.dfy`, `LiveTorrent.dfy` | streams that read while downloading, their wake-ups, and the announcement of completed pieces |
| `Storage.dfy`, `FileOps.dfy`, `ChunkIO.dfy` | a byte store that may fail; checking pieces; reading and writing chunks across files |
| `CreateTorrent.dfy` | streaming files into piece hashes |
| `ReadBuf.dfy` | the ring buffer messages are read through |
| `Metadata.dfy`, `Pex.dfy`, `FileTree.dfy` | BEP 9 metadata reassembly, BEP 11 peer exchange, the browsable file tree |

`dafny verify dfyconfig.toml` checks everything.

## How the parts fit

The trackers are classes whose methods update fields as the program does. `PieceTracker` carries a
ghost history of steps, and its invariant says that its state is the run of that history, so each
theorem about runs (`TrackerState`, `FileCounts`, `ChunkRuns`) is a theorem about every reachable
state of the object. Between the removal of a piece from the in-flight map and its hash verdict, the
piece is in none of the documented states; a ghost set `verifying` names that state. A ghost set
`unnotified` names the pieces that are had but whose completion has not been announced.

That a piece is in exactly one state is proved as an equivalence: it holds throughout a run if and
only if every step keeps the states apart and every pause is safe (`ExactlyOneStatus`). Download tasks
(`src/torrent_state/live/peer_handler.rs:911-1010`) always comply, however they interleave. What the
rest of the program must respect, called *calm*, is that it reserves no piece that is had or awaits its
verdict, selects none anew that is in flight or awaits its verdict, and does not pause while a needed
one does (`InterleavedStatus`). Nothing enforces this, and what does not need it is proved without it:
the theorems about stalled pieces hold for all interleavings, those about recorded chunks for all runs,
and those about the byte counters for all runs that announce each completion once.

Where a method and its contract share a function, a lemma says separately what that function computes,
in bytes or positions: chunks cover their pieces (`ChunksCoverPiece`), blocks go to their own place and
assemble to the piece in any order (`BlockHasItsPlace`, `BlocksAssemble`), a piece is selected for the
bytes it shares with a chosen file (`SelectedExactly`), offers follow the order of the files
(`OfferOrder`), statistics count bytes (`StatisticsCountBytes`).

Some documented promises hold only under a condition. The code is modelled as it is, the exact
condition is proved, and a run or an input that breaks the promise is given:

- A pause loses the needed pieces whose verdict is pending, unless they are queued or in flight as
  well, and only those (`LosesNothingExactly`): what is no longer in flight is not requeued
  (`PauseLosesPending`).
- A piece can *stall*: it is missing, all its chunks are recorded, and no task is checking it. Whoever
  downloads it is then told that it was completed before, so it is never checked
  (`StalledRefusesChunks`). A piece stalls when a read error breaks its check off, when a pause ends
  its check, or when its last chunk arrives while it is not in flight. It stays stalled, even when a
  stream reserves it, until the peer it is assigned to dies, a pause comes while it is in flight, or
  it is newly selected (`StalledExactly`, `StalledRunExactly`; `ReadErrorStalls` and
  `ReservedStaysStalled` are runs). In every interleaving the needed pieces that no download can
  complete and no task is checking are exactly the stalled ones (`NeededIsFetchable`,
  `NothingLostIff`).
- "A piece is in exactly one state" fails when the selection is widened onto a piece that is in
  flight or being verified, and when a priority piece is reserved while its verdict is pending.
  `ApartExactly` gives the exact condition for each step; `ReselectingDuplicates` and
  `PriorityOverlapsCheck` are runs.
- The per-file byte counters stay behind for a piece that spans two files with an empty file
  between them, because the scan over the files stops there (`ScanReachesAll`,
  `CountersExactIff`, `InterruptedCountStaysBehind`).
- Counters that are up to date overstate after an announcement if and only if it is not of a
  completion still to be announced (`AnnouncementExactly`). The program can announce one twice: when
  a file is deselected and reselected while one of its pieces is being checked, the piece is
  requeued, downloaded, checked and announced again; the file then counts as complete, and a piece
  of it that is still missing and queued is never offered (`DoubleAnnouncementHidesPiece`). As long
  as no piece passes its check twice, the counters never overstate and nothing is hidden
  (`CountsNeverOverstate`, `PassedOnceHidesNothing`).
- A parked stream is woken by the announcement of its piece. A pause drops the announcements still to
  come, and strands exactly the streams parked on a piece that is had by then
  (`PauseStrandsNobodyIff`, `PauseMayStrand`).
- A stream standing at the end of its file wants nothing more, but still asks for the piece there
  when the file ends inside a piece (`StreamQueueIsWindow`).
- A created torrent lacks its last hash when the last file is empty and bytes are left over, and
  has one hash too many when the total is a multiple of the piece length and the last file is not
  empty (`CreateThenCheck`, `HashCount`; `LastHashMissing` and `OneHashTooMany` are inputs).
- Peer exchange sends addresses that its own locality filter rejects, keeps sending them for as long
  as they are live (`RejectedAreResent`), and never withdraws them; what the peer believes is our
  record and every rejected address ever sent (`BeliefIsViewPlusRejected`). With fifty or more
  rejected live addresses the accepted ones may never be sent at all (`RejectedMayStarve`,
  `ReachedIff`).
- `read_chunk` fills the whole buffer it is given, not only the chunk, and issues an empty read on
  a file that ends exactly where the chunk starts (`ChunkIO.ReadChunk`).

The geometry type `Lengths` lives in another crate. It is defined here so that pieces tile the
torrent and chunk bits start at a multiple of the full piece's chunk count, as the tests in
`src/chunk_tracker.rs` pin it.

## Model

| member | source | states |
|---|---|---|
| Lengths.PiecesTile | src/chunk_tracker.rs:420-426 | pieces are non-empty, adjacent and end exactly at the total length |
| Lengths.ChunkRangesDisjoint | src/chunk_tracker.rs:88-100 | the chunk bits of different pieces never overlap |
| Lengths.ChunksTilePiece | src/chunk_tracker.rs:301-305 | each chunk reaches to the next one or to the end of its piece and is not empty; a received block counts as that chunk exactly when it starts where the chunk does and has its size |
| Lengths.ChunksCoverPiece | src/chunk_tracker.rs:88-91 | every byte of a piece lies in exactly one of its chunks, and no chunk reaches beyond the piece |
| Lengths.AcceptedBlocks | src/chunk_tracker.rs:301-305 | a received block is accepted exactly when it starts on a chunk boundary inside the piece and reaches to the next one or to the end of the piece |
| Lengths.ChunkBitsAdjacent | src/chunk_tracker.rs:88-91 | the chunk bits of successive pieces are adjacent, and their number is that of all chunks |
| Lengths.SizeIsOverlap | src/chunk_tracker.rs:391-404 | the size of a piece in a file is the number of bytes that lie in both |
| Lengths.PieceInFileRange | src/chunk_tracker.rs:787-816 | a file's piece range lists exactly the pieces that share a byte with it |
| Files.PiecePrioritiesPermutation | src/file_info.rs:15-26 | every piece of the range is listed once, first piece, last piece, then the middle in order |
| Files.FileComplete | src/chunk_tracker.rs:187-199 | the bytes a set of pieces holds of a file never exceed its length, and equal it exactly when all its pieces are in the set |
| Files.FileBytesAreCounted | src/chunk_tracker.rs:187-199 | what a set of pieces holds of a file is the number of the file's bytes that lie in one of them |
| ChunkState.FinishedMeansAllHad | src/chunk_tracker.rs:58-70 | progress cannot go negative, and "finished" holds exactly when every selected piece is had |
| ChunkState.AllPiecesWeigh | src/chunk_tracker.rs:221-234 | all pieces together have as many bytes as the torrent |
| ChunkState.StatisticsCountBytes | src/chunk_tracker.rs:217-234 | the three statistics are the numbers of bytes in pieces had, in pieces selected and not had, and in pieces selected |
| ChunkState.SelectedExactly | src/chunk_tracker.rs:131-148 | a piece is selected exactly when some chosen file that is not padding shares a byte with it |
| Offers.OfferOrder | src/chunk_tracker.rs:236-249 | a queued piece that the incomplete file at some place of the priorities lists is offered before every piece that no incomplete file before that place lists; inside one file the first piece comes first, then the last, then the others in order |
| ChunkState.OfferedExactly | src/chunk_tracker.rs:236-249 | a queued piece is hidden exactly when every listed file that contains it counts as complete |
| ChunkState.EveryQueuedPieceOffered | src/chunk_tracker.rs:236-249 | skipping files that count as complete hides no queued missing piece while the counters do not overstate |
| ChunkTracker.ComputeChunkHaveStatus | src/chunk_tracker.rs:75-102 | for every byte of every piece, the bit of the chunk that holds it is set exactly when the piece was had, and no other bit is set; too short a bit field is an error |
| ChunkTracker.ComputeQueuedPieces | src/chunk_tracker.rs:116-129 | queued is selected minus had; unequal lengths are an error |
| ChunkTracker.ComputeSelectedPieces | src/chunk_tracker.rs:131-148 | sets the bits of exactly the pieces that share a byte with a chosen file that is not padding |
| ChunkTracker.ChunkTracker.New | src/chunk_tracker.rs:158-185 | refused exactly when the bit fields differ in length or lack a bit for some piece; otherwise queues what is selected and missing, and both caches equal recounting |
| ChunkTracker.ChunkTracker.RecalculatePerFileBytes | src/chunk_tracker.rs:187-199 | each counter becomes the bytes of that file the pieces had hold |
| ChunkTracker.ChunkTracker.CalcHns | src/chunk_tracker.rs:221-234 | one pass gives the byte sums of the had, needed and selected pieces |
| ChunkTracker.ChunkTracker.ReserveNeededPiece | src/chunk_tracker.rs:213-215 | takes exactly that piece out of the queue |
| ChunkTracker.ChunkTracker.MarkPieceBrokenIfNotHave | src/chunk_tracker.rs:255-270 | requeues a missing piece and clears its chunks only; a piece had is left alone |
| ChunkTracker.ChunkTracker.MarkPieceDownloaded | src/chunk_tracker.rs:272-282 | the incremental statistics equal recomputation and never underflow |
| ChunkTracker.ChunkTracker.MarkChunkDownloaded | src/chunk_tracker.rs:297-321 | a block that starts on a chunk boundary and reaches to the next one or the end of the piece sets the bit of its bytes and is answered by the piece's bits before and after; anything else changes nothing |
| ChunkTracker.ChunkTracker.UpdateOnlyFiles | src/chunk_tracker.rs:323-368 | selected become exactly the pieces that share a byte with a chosen file that is not padding; newly selected missing ones are requeued, unwanted missing ones leave the queue, statistics match recomputation |
| ChunkTracker.ChunkTracker.UpdateFileHaveOnPieceCompleted | src/chunk_tracker.rs:391-404 | one counter grows by the piece's share of the file; the rest of the file is returned, never below zero |
| TrackerState.LosesNothingExactly | src/piece_tracker.rs:104-261 | a step keeps every needed piece queued, in flight or verifying, except that a pause keeps them exactly when none is only verifying |
| TrackerState.NeverLostExactly | src/piece_tracker.rs:104-261 | over any run nothing needed is lost at any time exactly when every pause is safe |
| TrackerState.NoPieceLost | src/piece_tracker.rs:104-261 | in every run with safe pauses each selected missing piece is queued, in flight or verifying |
| TrackerState.PauseLosesPending | src/piece_tracker.rs:104-110 | reserving, taking and pausing leaves a needed piece with nobody to fetch it |
| TrackerState.AdriftRunExactly | src/piece_tracker.rs:104-261 | in any run a piece neither had, queued nor in flight stays so throughout exactly when no step gives it a verdict, reserves it or newly selects it |
| TrackerState.HandOverKeeps | src/piece_tracker.rs:100-110 | a pause requeues exactly the in-flight missing pieces and changes nothing else; with nothing verifying every needed piece is queued |
| TrackerState.ApartExactly | src/piece_tracker.rs:123-261 | for each step, the exact condition under which queue, in flight, verifying and had stay disjoint |
| TrackerState.StatesStayDisjoint | src/piece_tracker.rs:73-78 | over any run the four sets are disjoint throughout exactly when every step keeps them apart |
| TrackerState.ExactlyOneStatus | src/piece_tracker.rs:6-10 | over any run each piece has exactly one status throughout exactly when every step keeps the states apart and every pause is safe |
| TrackerState.ReselectingDuplicates | src/chunk_tracker.rs:335-364 | deselecting and reselecting a file leaves its in-flight piece also queued |
| TrackerState.PriorityOverlapsCheck | src/piece_tracker.rs:134-143 | a priority piece reserved while its verdict is pending is in flight and being verified at once |
| FileCounts.CountsNeverOverstate | src/chunk_tracker.rs:391-404 | in every run that announces each completion once, whatever else it does, no counter exceeds what the pieces had and announced hold |
| FileCounts.ShortcutHidesNothing | src/chunk_tracker.rs:236-249 | in every such run a missing piece is offered exactly when it is queued |
| FileCounts.AnnouncementExactly | src/torrent_state/live/mod.rs:653-671 | from counters that are up to date, an announcement keeps them from overstating exactly when it is of a completion still to be announced |
| FileCounts.DoubleAnnouncementHidesPiece | src/chunk_tracker.rs:335-364 | a run that announces a completion twice, after which a needed, queued piece is never offered |
| FileCounts.CountedExactlyWhenReached | src/torrent_state/live/mod.rs:661-671 | after a run that announces each completion once, a counter is exact exactly when every piece completed in the file was announced and is reached by the scan |
| FileCounts.ScanReachesAll | src/torrent_state/live/mod.rs:662-671 | the scan reaches every file of a piece exactly when no empty file stands between two of them |
| FileCounts.CountersExactIff | src/torrent_state/live/mod.rs:661-671 | after such a run all counters equal recounting exactly when every completed piece was announced and is not interrupted by an empty file |
| FileCounts.InterruptedCountStaysBehind | src/torrent_state/live/mod.rs:661-671 | three files, the middle one empty: after the only piece is announced the last file still counts as having nothing |
| ChunkRuns.DeliveryToOtherPiece | src/chunk_tracker.rs:306-321 | a delivery to one piece never touches another's chunks |
| ChunkRuns.RequeueEffect | src/chunk_tracker.rs:255-270 | requeueing forgets the chunks of exactly the requeued missing pieces |
| ChunkRuns.StepEffect | src/piece_tracker.rs:104-261 | every step of the download state forgets the chunks of exactly the pieces it requeues, adds a delivered chunk, or leaves them alone |
| ChunkRuns.ClearStartsOver | src/chunk_tracker.rs:255-270 | a step that forgets a piece's chunks starts it over as a cleared piece |
| ChunkRuns.FullExactly | src/chunk_tracker.rs:306-320 | all chunks of a piece are recorded after a step exactly when it does not forget them and they were, or it completes the piece; while they are, deliveries are answered "previously completed" |
| ChunkRuns.AnswerByDistinctChunks | src/chunk_tracker.rs:306-320 | in any run from a cleared piece each delivery is answered by the distinct chunks delivered so far |
| ChunkRuns.CompletesExactlyOnce | src/chunk_tracker.rs:296-321 | in any run, between two clears a piece completes at most once, and does so exactly when all its chunks are delivered |
| ChunkRuns.CompletesWhenCovered | src/chunk_tracker.rs:296-321 | since its last clear a piece reports completion exactly when every byte of it was in a delivered block, with the delivery that makes it so |
| ChunkRuns.ClearedRunGoesOn | src/chunk_tracker.rs:255-270 | the time since a clear goes on with every step that does not forget the piece's chunks |
| DownloadTasks.StalledExactly | src/torrent_state/live/peer_handler.rs:911-1010 | in any world a piece is stalled after an event exactly when it is missing and the event stalls it, or it was stalled and the event does not free it |
| DownloadTasks.StalledRefusesChunks | src/chunk_tracker.rs:306-315 | every delivery to a stalled piece is answered "previously completed" and changes nothing |
| DownloadTasks.StalledRunExactly | src/torrent_state/live/peer_handler.rs:911-1010 | over any interleaving a stalled piece stays stalled throughout exactly when no owner's death, pause in flight or new selection frees it |
| DownloadTasks.NeededIsFetchable | src/torrent_state/live/peer_handler.rs:911-1010 | in every interleaving a needed piece is being checked or can be completed by a download, or it is stalled, and never both |
| DownloadTasks.NothingLostIff | src/torrent_state/live/peer_handler.rs:911-1010 | once no task is at work every needed piece can be completed by a download exactly when none is stalled |
| DownloadTasks.OthersGoOn | src/piece_tracker.rs:104-261 | whatever the download tasks are at, any sequence of reservations, steals, releases, selections and pauses may follow |
| DownloadTasks.ReadErrorStalls | src/torrent_state/live/peer_handler.rs:950-954 | in any torrent a needed piece that is reserved, delivered in full and whose check breaks off is stalled |
| DownloadTasks.ReservedStaysStalled | src/torrent_state/live/peer_handler.rs:926-930 | reserving it for a stream then puts it in flight, yet no delivery can complete it |
| DownloadTasks.CalmExactly | src/torrent_state/live/peer_handler.rs:911-1010 | from a consistent world each piece has one status afterwards exactly when the event is calm, as whatever a task does is |
| DownloadTasks.CalmKeepsConsistent | src/torrent_state/live/peer_handler.rs:911-1010 | calm events keep the pieces being verified or awaiting announcement exactly those some task works on, one task a piece, or whose check broke off |
| DownloadTasks.InterleavedStatus | src/torrent_state/live/peer_handler.rs:911-1010 | however tasks interleave, each piece has exactly one status at all times exactly when every event is calm, and then is verifying exactly while a task checks it or after its check broke off |
| DownloadTasks.AnnouncedOnceIfPassedOnce | src/torrent_state/live/peer_handler.rs:955-992 | in every interleaving in which no piece passes its check twice, each completion is announced once |
| DownloadTasks.PassedOnceHidesNothing | src/torrent_state/live/peer_handler.rs:955-992 | in every such interleaving a missing piece is offered exactly when it is queued |
| Acquire.NoneAvailableIsComplete | src/piece_tracker.rs:134-164 | after "none available", in a run that announces each completion once, the peer has no missing queued piece and no free priority piece |
| Acquire.AcquiredIsSound | src/piece_tracker.rs:123-218 | an acquired piece is missing, downloadable by the peer, becomes in flight for it from now on with no other assignment changed, and keeps the states apart unless its verdict is pending |
| Acquire.PriorityFirst | src/piece_tracker.rs:134-143 | the reserved piece is the first priority piece that is neither had nor in flight and that the peer has, or one from the queue if there is none |
| Acquire.ReservedIsEarliest | src/piece_tracker.rs:145-157 | with no priority piece free, nothing the peer could fetch comes before the reserved piece in the order of the files and inside them; nothing is available only if nothing can be fetched |
| Acquire.SlowPiecesAreStolen | src/piece_tracker.rs:190-207 | a piece another peer has had for ten times the average is stolen, or three times with nothing to reserve, unless one in flight at least as long is locked; what is stolen has been in flight for longest |
| Acquire.AssignmentExactly | src/piece_tracker.rs:167-230 | in every run the in-flight map says exactly who was last assigned each piece, and when |
| Acquire.StolenFromOwner | src/piece_tracker.rs:190-217 | a piece is stolen from the peer it was last assigned to, at least ten times the asking peer's average after that, or three times if there is nothing to reserve |
| PieceTracker.PieceTracker.AcquirePiece | src/piece_tracker.rs:123-164 | steal at ten times the average, else reserve the first free priority piece, else the earliest piece the peer could fetch in the order of the files and inside them, else steal at three times; the piece becomes in flight for the peer from now on, and nothing else changes but the queue |
| PieceTracker.PieceTracker.TrySteal | src/piece_tracker.rs:180-218 | takes over the longest-running piece past the threshold that the peer has, from now on; or none is stealable or the longest is locked |
| PieceTracker.PieceTracker.ReservePiece | src/piece_tracker.rs:167-177 | moves the piece from the queue to the peer, in flight from now on, as one step |
| PieceTracker.PieceTracker.TakeInflight | src/piece_tracker.rs:227-230 | the piece becomes verifying; its time in flight is returned if it was in flight |
| PieceTracker.PieceTracker.MarkPieceHashOk | src/piece_tracker.rs:233-235 | the piece is had and its announcement pending |
| PieceTracker.PieceTracker.MarkPieceHashFailed | src/piece_tracker.rs:238-240 | the piece is requeued with its chunks cleared |
| PieceTracker.PieceTracker.ReleasePiecesOwnedBy | src/piece_tracker.rs:246-261 | exactly the dead peer's pieces leave the in-flight map and are requeued; their number is returned |
| PieceTracker.PieceTracker.IntoChunks | src/piece_tracker.rs:104-110 | all in-flight missing pieces are requeued, statistics unchanged |
| PieceTracker.PieceTracker.CountTowardsFiles | src/torrent_state/live/mod.rs:662-671 | counts the piece towards exactly the files the scan reaches |
| PieceTracker.PauseAndResume | src/torrent_state/live/mod.rs:581-603 | a resumed torrent continues the run of the paused one |
| PieceTracker.TrackerLosesNothing | src/piece_tracker.rs:73-78 | whatever was called on a tracker, with safe pauses nothing needed is lost and "finished" is exact |
| PieceTracker.TrackerHasOneStatus | src/piece_tracker.rs:73-78 | whatever was called on a tracker, each piece had one status at every point exactly when every call kept the states apart and every pause was safe |
| PieceTracker.TrackerHidesNothing | src/piece_tracker.rs:145-157 | a tracker told of each completion once, whatever else was called, has counters that never overstate and offers every missing queued piece |
| PieceTracker.TrackerCompletesOnce | src/chunk_tracker.rs:296-321 | since a piece was last cleared the tracker has recorded exactly the chunks delivered, and reported completion at most once, exactly when every byte of the piece was in a delivered block |
| LiveTorrent.LiveTorrent.OnPieceCompleted | src/torrent_state/live/mod.rs:653-698 | counts the piece, wakes exactly the streams waiting for it, reports completion exactly, and bounds the unflushed bytes while flushes succeed |
| LiveTorrent.LiveTorrent.MarkPieceHashOk | src/torrent_state/live/peer_handler.rs:955-960 | a piece becoming had strands no parked stream before its announcement |
| LiveTorrent.LiveTorrent.QuietStep | src/piece_tracker.rs:123-261 | acquiring, taking, failing, releasing, delivering and selecting leave what is had and what is still to be announced alone, on which every parked stream's wake-up rests |
| LiveTorrent.LiveTorrent.Poll | src/torrent_state/streaming.rs:168-243 | a poll answers by what the tracker has at that moment and parks in the same step |
| LiveTorrent.PauseAndResumeLive | src/torrent_state/live/mod.rs:581-603 | after a pause every parked stream will still be woken exactly when none stands on a piece that is had |
| Streaming.TorrentStreams.PollRead | src/torrent_state/streaming.rs:168-243 | nothing at the end of the file, pending exactly on a missing piece with the waker registered in the same step, else the file's data at the position exactly if it can be read; data moves both positions |
| Streaming.DataIsHad | src/torrent_state/streaming.rs:183-226 | every byte a poll gives belongs to a piece that is had, and it gives as many as there is room for, up to the end of the file or of the piece |
| Streaming.TorrentStreams.StartSeek | src/torrent_state/streaming.rs:247-268 | a seek from the start, the end or the position is accepted exactly inside the file and then moves both positions there |
| Streaming.TorrentStreams.WakeStreamsOnPieceCompleted | src/torrent_state/streaming.rs:104-121 | wakes exactly the streams on that piece; every stream still parked waits for a missing piece or a pending announcement |
| Streaming.TorrentStreams.PauseStrandsNobodyIff | src/torrent_state/live/mod.rs:581-603 | dropping the announcements still to come strands nobody exactly when no parked stream stands on a piece that is had |
| Streaming.TorrentStreams.PauseMayStrand | src/torrent_state/live/peer_handler.rs:955-992 | a pause between a good verdict and its announcement strands the stream parked on that piece |
| Streaming.CurrentPieceExists | src/torrent_state/streaming.rs:183-188 | inside a file there is always a current piece that holds the position |
| Streaming.CurrentPieceExactly | src/torrent_state/streaming.rs:183-188 | inside the torrent, and only there, there is a current piece: the one the position lies in, with what is left of it |
| Streaming.WaitsExactly | src/torrent_state/streaming.rs:109-111 | a stream waits for a piece exactly when its waker is registered and its position lies in the piece |
| Interleave.StreamQueueIsWindow | src/torrent_state/streaming.rs:44-51 | a stream wants the pieces that share a byte with its look-ahead, in order, exactly when it is inside its file or the file ends on a piece boundary; otherwise it wants the piece at the end |
| Interleave.Interleaver.Next | src/torrent_state/streaming.rs:84-92 | gives the next piece of the round and shrinks what is left |
| Interleave.Interleaver.Collect | src/torrent_state/streaming.rs:84-93 | asking until nothing comes terminates and gives everything the deque holds |
| Interleave.DrainIsColumns | src/torrent_state/streaming.rs:72-102 | the output is the queues read column by column: all first pieces before any second, each stream in its own order |
| Interleave.DrainKeepsEverything | src/torrent_state/streaming.rs:77-93 | every queued piece is given exactly as often as it is queued |
| FileOps.UpdateHashFromFile | src/file_ops.rs:23-50 | succeeds exactly when each read it makes does, and then has hashed exactly the requested bytes of the file, zeros for padding |
| FileOps.HashReadsExactly | src/file_ops.rs:23-50 | the reads made for a stretch are those of one bufferful after another |
| FileOps.CheckPiece | src/file_ops.rs:193-270 | gives a verdict exactly when each read it makes succeeds and the piece has a hash, and the verdict is about the piece's actual bytes |
| FileOps.HashNextPiece | src/file_ops.rs:121-170 | the cursor moves over exactly one piece; the piece is reported broken, and the file marked, exactly when a read made fails; the whole piece is hashed unless a file known to be broken is left out |
| FileOps.InitialCheck | src/file_ops.rs:74-191 | one bit per piece: unset if a read made for it fails; exact if none does and no file of it broke before; else set only if fewer bytes have its hash; the errors are cancellation, no files, or a missing hash |
| FileOps.ScanAgreesWithRandomAccess | src/file_ops.rs:74-270 | with honest collision-free hashes a bit is set exactly when the piece matches, no read made for it failed and no file of it broke before; then the single check says yes, and without failures both agree |
| ChunkIO.ReadChunk | src/file_ops.rs:272-319 | succeeds exactly when the buffer is large enough and each read it makes succeeds, and then the buffer holds the torrent's bytes from the chunk's place in its piece on |
| ChunkIO.WriteChunk | src/file_ops.rs:321-375 | succeeds exactly when each write it makes does; the bytes at the chunk's place in its piece are then the block, padding swallowing its own; bytes elsewhere never change, even on failure |
| ChunkIO.WriteThenRead | src/file_ops.rs:272-375 | after a write the range reads as the data with zeros at padding, and every other byte is unchanged |
| ChunkIO.WriteThenReadChunk | src/file_ops.rs:272-375 | writing a chunk and reading it back gives the block with zeros at padding, at the chunk's place in its piece |
| ChunkIO.BlockHasItsPlace | src/torrent_state/live/peer_handler.rs:809-815 | an accepted block goes to the bytes of the torrent that start at its offset in its piece |
| ChunkIO.WriteBlock | src/torrent_state/live/peer_handler.rs:809-902 | succeeds exactly when the block is a chunk and each write it makes does; then exactly the bytes of its place are the block, zeros in padding |
| ChunkIO.WriteBlocks | src/torrent_state/live/peer_handler.rs:809-902 | blocks of any pieces in any order are stored one after another, up to the first that is not a chunk or fails |
| ChunkIO.BlocksAssemble | src/file_ops.rs:321-375 | blocks of a piece stored in any order, with blocks of other pieces in between, leave their content end to end, zeros in padding, and elsewhere what was there |
| ChunkIO.StoredPieceIsContent | src/file_ops.rs:193-375 | once blocks holding all bytes of a piece are stored, checking the piece is about exactly that content |
| Storage.Storage.PwriteAllVectored | src/storage/mod.rs:136-152 | two slices are written as if they were one, exactly when both writes succeed; otherwise at most the first is |
| CreateTorrent.CreateTorrentRaw | src/create_torrent_file.rs:106-159 | for all contents and read sizes the hashes are those of successive blocks, plus the residue's if the last file is not empty; there is no result only if a file cannot be opened or read |
| CreateTorrent.CreateThenCheck | src/create_torrent_file.rs:106-159 | checking the created torrent succeeds on every piece exactly when the last file is non-empty or the total is a multiple of the piece length |
| CreateTorrent.HashCount | src/create_torrent_file.rs:157-159 | the number of hashes is the number of pieces exactly when "last file non-empty" and "bytes left over" agree |
| CreateTorrent.LastHashMissing | src/create_torrent_file.rs:157-159 | two files, the last one empty: the only piece has no hash and does not check |
| CreateTorrent.OneHashTooMany | src/create_torrent_file.rs:157-159 | one file of exactly one piece: two hashes |
| ReadBuf.SpansPartition | src/read_buf.rs:103-137 | filled and unfilled slices are disjoint, cover the buffer, and have the right total lengths |
| ReadBuf.ReadBuf.Advance | src/read_buf.rs:25-30 | drops bytes from the front of the queue; asking for too many empties it |
| ReadBuf.ReadBuf.ReadMore | src/read_buf.rs:123-137 | bytes read into the two free slices are appended to the queue |
| ReadBuf.ReadBuf.MakeContiguous | src/read_buf.rs:72-100 | keeps the queue, leaves one slice at the front, and is refused exactly when the data ends before the end of the ring |
| ReadBuf.ReadBuf.ReadHandshake | src/read_buf.rs:52-70 | the handshake is parsed from what one read delivers and only its bytes are removed; there is none exactly if the read failed, the stream had ended, or it delivered no handshake |
| ReadBuf.ReadBuf.ReadAtLeast | src/read_buf.rs:172-193 | reads the missing bytes or stops short with nothing removed: "full" only when full, "disconnected" only at end of stream, "failed" only after a failed read |
| ReadBuf.ReadBuf.ReadMessage | src/read_buf.rs:140-201 | terminates, linearises at most once, and returns a parsed message with only its bytes removed, or leaves the stream intact because the parser refused the bytes held, lacks bytes at the end of stream or with the ring full, or a read failed |
| ReadBuf.ReadMessages | src/peer_connection.rs:473-480 | the messages read one after another are the first ones of the stream, however its bytes were split and wherever the ring stood; with a parser that misses nothing all are read, unless a read fails or one is longer than the ring |
| Metadata.MetadataPiecesTile | src/peer_info_reader/mod.rs:100-119 | pieces tile the metadata, only the last may be shorter, and no offset overflows 32 bits |
| Metadata.MetadataBuffer.New | src/peer_info_reader/mod.rs:84-99 | sizes above 32 MiB are refused, and nothing else |
| Metadata.MetadataBuffer.RecordPiece | src/peer_info_reader/mod.rs:109-145 | accepts exactly a new piece that reaches to the next one or to the end; each region is written at most once; "complete" only when the buffer is the concatenation of all pieces and has the hash |
| Metadata.MetadataBuffer.ReceiveAll | src/peer_info_reader/mod.rs:180-213 | deliveries are recorded one by one until one is refused or completes the metadata; complete only with all pieces in order and the hash |
| Metadata.GoesOnWithNews | src/peer_info_reader/mod.rs:180-213 | the exchange goes on only while each delivery is a real piece of the right length that none before it was, and only until there is one of each |
| Metadata.GenuinePiecesAssemble | src/peer_info_reader/mod.rs:109-145 | whatever the order of arrival, genuine pieces that are all recorded assemble to the original |
| Metadata.GenuineDeliveriesComplete | src/peer_info_reader/mod.rs:109-145 | genuine pieces, none twice, meet no error, and complete the metadata, as the original, exactly when all arrive |
| Pex.PexTask.SendRound | src/torrent_state/live/tasks.rs:344-405 | one round sends at most fifty added and fifty dropped, disjoint, never an empty message, and records only filtered addresses |
| Pex.MessagesAreNews | src/torrent_state/live/tasks.rs:357-405 | what a message drops the peer believes; what it adds the peer believes already exactly when it was sent before and rejected by the filter |
| Pex.BeliefIsViewPlusRejected | src/torrent_state/live/tasks.rs:385-403 | replaying all messages gives the record plus every rejected address ever sent |
| Pex.GapShrinks | src/torrent_state/live/tasks.rs:357-368 | under a fixed accepted live set each round closes the gap by fifty each way, exactly |
| Pex.ConvergesIff | src/torrent_state/live/tasks.rs:344-405 | after enough rounds the record equals the live set exactly when every live address passes the filter, and then the peer's belief does too |
| Pex.ConvergesToAccepted | src/torrent_state/live/tasks.rs:344-405 | with fewer than fifty rejected live addresses the record reaches all accepted ones, in a number of rounds that is given |
| Pex.RejectedMayStarve | src/torrent_state/live/tasks.rs:357-368 | with fifty or more there are runs of any length that record nothing |
| Pex.ReachedIff | src/torrent_state/live/tasks.rs:344-405 | every run reaches all accepted live addresses sooner or later exactly when fewer than fifty are rejected or none is accepted |
| Pex.RejectedAreResent | src/torrent_state/live/tasks.rs:357-405 | rejected live addresses are sent again for ever: once the record is complete every message consists of them |
| FileTree.IdsRoundTrip | src/upnp_server_adapter.rs:39-50 | ids decode to what was encoded exactly when both parts fit their fields, and then each part has its own bits |
| FileTree.SingleFileExactly | src/upnp_server_adapter.rs:106-112 | a torrent counts as a single file exactly when no path has two components and at most one has any |
| FileTree.TorrentFileTree.AddFile | src/upnp_server_adapter.rs:153-189 | keeps the tree linked both ways, the cache exact, and adds exactly the file's leaf |
| FileTree.TorrentFileTree.Build | src/upnp_server_adapter.rs:114-192 | a linked tree with one leaf per non-empty path spelling that path; a lone component is the root itself, otherwise the root has the torrent's name, no two sibling directories share a title, and none is empty |

## Left out

- Sockets, encryption, DHT, trackers, UPnP forwarding, the HTTP API, the web UI and the session stores: plumbing over libraries that are not in the repository.
- The peer state machine and task cancellation: of a download task only its steps on the tracker enter, from the last chunk of a piece on; a pause ends all tasks, since they find the tracker gone.
- Time: elapsed times are natural numbers, one clock reading per acquisition, and thresholds are whole multiples of the average.
- HashMap and HashSet iteration order: any order, so ties between equally long running pieces are broken arbitrarily.
- SHA-1: an arbitrary function, collision-free where a statement says so.
- Files on disk: a store of byte sequences whose reads and writes fail as an arbitrary function of file, offset and size. Connections: reads fail as an arbitrary function of their number.
- `Lengths::new` and its errors: not in the repository; the model allows any total and any positive piece length.
- Bit fields are sequences that are reassigned, so sharing of the underlying memory is not modelled.
- ChunkTracker.ChunkTracker.New: bit fields longer than the number of pieces rounded up to whole bytes are accepted as in the program, but the operations on the tracker are modelled only for fields of that size, which is what the callers construct.
- PieceTracker.TrackerLosesNothing: counts a piece as kept while its verdict is pending; that the verdict may never come is the subject of `DownloadTasks.NeededIsFetchable`.
- DownloadTasks.StalledExactly: deliveries may come at any time, so the look at a piece's owner before a chunk is written is not a separate step; in the program a piece can be completed while it is not in flight only if it leaves between that look and the recording of the chunk.
- Streaming.TorrentStreams.StartSeek: positions are unbounded integers, so overflow of 64-bit offsets is not modelled.
- FileTree.TorrentFileTree.Build: requires a first file with a path when the torrent has at most one path component, where the program would panic.
- ReadBuf.ReadBuf.ReadMessage: requires a parser that asks for at least one more byte, asks for one slice only when there are two, and takes no more than it was given; the message format is not part of this model.
- Names and sort order of files: any priority list is allowed, and completeness asks only that it lists every file.
- Fast-resume validation, the write-through cache and the bit field's file format.
- Disconnecting peers when a torrent finishes, and reconnecting them when the selection grows.
