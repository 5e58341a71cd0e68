/** A live torrent: the piece tracker, the streams reading it, and the count of completed bytes
    not yet flushed to the stored bit field. */
module LiveTorrent {
  import opened Prelude
  import opened Lengths
  import opened Files
  import opened ChunkState
  import opened ChunkTracker
  import opened TrackerState
  import opened Acquire
  import opened PieceTracker
  import opened Streaming
  import opened Storage

  const FLUSH_BITV_EVERY_BYTES: nat := 16 * 1024 * 1024

  /** One more piece adds at most its length. */
  lemma OneMorePiece(l: Lengths, s: set<nat>, t: set<nat>, id: nat)
    requires l.Valid() && t <= s + {id} && id < l.TotalPieces()
    ensures PieceBytes(l, t) <= PieceBytes(l, s) + Max(0, l.PieceLength(id))
  {
    var n, w := l.TotalPieces(), PieceWeight(l);
    WSumInsert(w, s - {id}, id, 0, n);
    assert (s - {id}) + {id} == s + {id};
    WSumMono(w, t, s + {id}, 0, n);
    WSumMono(w, s - {id}, s, 0, n);
  }

  class LiveTorrent {
    const pieces: PieceTracker
    const streams: TorrentStreams
    var unflushedBitvBytes: nat
    ghost var flushed: set<nat>   // the pieces had at the last successful flush, or at the start

    ghost predicate Valid()
      reads this, pieces, pieces.chunks, streams
    {
      && pieces.Valid()
      && streams.Valid(pieces.chunks.lengths, pieces.View().chunks.have, pieces.unnotified)
      && PieceBytes(pieces.chunks.lengths, pieces.View().chunks.have - pieces.unnotified - flushed)
           <= unflushedBitvBytes
    }

    constructor (tracker: PieceTracker, s: TorrentStreams)
      requires tracker.Valid()
      requires s.Valid(tracker.chunks.lengths, tracker.View().chunks.have, tracker.unnotified)
      ensures Valid() && pieces == tracker && streams == s && unflushedBitvBytes == 0
    {
      pieces, streams, unflushedBitvBytes := tracker, s, 0;
      flushed := tracker.View().chunks.have;
      new;
      assert pieces.View().chunks.have - pieces.unnotified - flushed == {};
      WSumEmpty(PieceWeight(pieces.chunks.lengths), 0, pieces.chunks.lengths.TotalPieces());
    }

    /** A good verdict: between this and the announcement no parked stream is stranded. */
    method MarkPieceHashOk(piece: nat)
      requires Valid() && piece < pieces.chunks.lengths.TotalPieces()
      modifies pieces, pieces.chunks
      ensures Valid() && pieces.history == old(pieces.history) + [HashOk(piece)]
    {
      ghost var l, have, unannounced := pieces.chunks.lengths, pieces.View().chunks.have, pieces.unnotified;
      streams.HavingStrandsNobody(l, have, unannounced, piece);
      pieces.MarkPieceHashOk(piece);
      ghost var counted := pieces.View().chunks.have - pieces.unnotified - flushed;
      ghost var before := have - unannounced - flushed;
      assert counted <= before;
      WSumMono(PieceWeight(l), counted, before, 0, l.TotalPieces());
    }

    // ---- Steps that complete nothing -------------------------------------------------

    /** Such a step leaves what is had, and what is still to be announced, alone. */
    lemma QuietStep(s: State, past: seq<Step>, step: Step)
      requires pieces.Valid() && Quiet(step) && pieces.history == past + [step]
      requires s == Run(pieces.chunks.lengths, pieces.files, pieces.origin, past)
      ensures pieces.View().chunks.have == s.chunks.have && pieces.unnotified == s.unnotified
    {
      RunOneMore(pieces.chunks.lengths, pieces.files, pieces.origin, past, step);
    }

    method AcquirePiece(req: AcquireRequest, fileInfos: seq<FileInfo>, now: nat) returns (r: AcquireResult)
      requires Valid() && fileInfos == pieces.files
      requires forall p :: p in req.priorityPieces ==> p < pieces.chunks.lengths.TotalPieces()
      modifies pieces, pieces.chunks
      ensures Valid() && Askable(pieces.files, old(pieces.View()))
      ensures AcquireAnswer(pieces.chunks.lengths, pieces.files, old(pieces.View()), req, now, r)
      ensures pieces.history ==
        old(pieces.history) + match StepOf(req, now, r) case Some(step) => [step] case None => []
    {
      ghost var s, past := pieces.View(), pieces.history;
      r := pieces.AcquirePiece(req, fileInfos, now);
      if StepOf(req, now, r).Some? {
        QuietStep(s, past, StepOf(req, now, r).value);
      } else {
        assert pieces.history == past;
      }
    }

    method TakeInflight(piece: nat, now: nat) returns (r: Option<nat>)
      requires Valid() && piece < pieces.chunks.lengths.TotalPieces()
      modifies pieces, pieces.chunks
      ensures Valid() && pieces.history == old(pieces.history) + [Take(piece)]
      ensures r.Some? <==> piece in old(pieces.inflight)
    {
      ghost var s, past := pieces.View(), pieces.history;
      r := pieces.TakeInflight(piece, now);
      QuietStep(s, past, Take(piece));
    }

    method MarkPieceHashFailed(piece: nat)
      requires Valid() && piece < pieces.chunks.lengths.TotalPieces()
      modifies pieces, pieces.chunks
      ensures Valid() && pieces.history == old(pieces.history) + [HashFailed(piece)]
    {
      ghost var s, past := pieces.View(), pieces.history;
      pieces.MarkPieceHashFailed(piece);
      QuietStep(s, past, HashFailed(piece));
    }

    method ReleasePiecesOwnedBy(peer: nat) returns (count: nat)
      requires Valid()
      modifies pieces, pieces.chunks
      ensures Valid() && pieces.history == old(pieces.history) + [Release(peer)]
      ensures count == |OwnedBy(old(pieces.inflight), peer)|
    {
      ghost var s, past := pieces.View(), pieces.history;
      count := pieces.ReleasePiecesOwnedBy(peer);
      QuietStep(s, past, Release(peer));
    }

    method MarkChunkDownloaded(piece: nat, begin: nat, size: nat) returns (r: Option<ChunkMarkingResult>)
      requires Valid()
      modifies pieces, pieces.chunks
      ensures Valid()
      ensures r.Some? <==>
        piece < pieces.chunks.lengths.TotalPieces() && pieces.chunks.lengths.ChunkOfReceived(piece, begin, size).Some?
      ensures pieces.history == old(pieces.history) +
        if r.Some? then [ReceiveChunk(piece, pieces.chunks.lengths.ChunkOfReceived(piece, begin, size).value)] else []
    {
      ghost var s, past := pieces.View(), pieces.history;
      r := pieces.MarkChunkDownloaded(piece, begin, size);
      if r.Some? {
        QuietStep(s, past, ReceiveChunk(piece, pieces.chunks.lengths.ChunkOfReceived(piece, begin, size).value));
      }
    }

    method UpdateOnlyFiles(fileInfos: seq<FileInfo>, only: set<nat>) returns (h: HaveNeededSelected)
      requires Valid() && fileInfos == pieces.files
      modifies pieces, pieces.chunks
      ensures Valid() && pieces.history == old(pieces.history) + [SelectFiles(only)]
    {
      ghost var s, past := pieces.View(), pieces.history;
      h := pieces.UpdateOnlyFiles(fileInfos, only);
      QuietStep(s, past, SelectFiles(only));
    }

    // ---- Streams -----------------------------------------------------------------------

    method OpenStream(fileId: nat, f: FileInfo) returns (id: nat)
      requires Valid() && Placed(pieces.chunks.lengths, f)
      modifies streams
      ensures Valid() && id !in old(streams.streams) && id in streams.streams && streams.parked == old(streams.parked)
    {
      id := streams.Open(pieces.chunks.lengths, pieces.View().chunks.have, pieces.unnotified, fileId, f);
    }

    method DropStream(id: nat)
      requires Valid()
      modifies streams
      ensures Valid() && streams.streams == old(streams.streams) - {id} && streams.parked == old(streams.parked) - {id}
    {
      streams.Drop(pieces.chunks.lengths, pieces.View().chunks.have, pieces.unnotified, id);
    }

    method Seek(id: nat, to: SeekFrom) returns (ok: bool)
      requires Valid() && id in streams.streams
      modifies streams
      ensures Valid()
      ensures id in old(streams.readers) &&
        var me := old(streams.readers)[id];
        var target := match to case Start(s) => s case End(e) => me.fileLen + e case Current(o) => me.position + o;
        && (ok <==> 0 <= target <= me.fileLen)
        && streams.readers ==
             if ok then old(streams.readers)[id := me.(position := target)] else old(streams.readers)
    {
      assert id in streams.readers.Keys;
      ok := streams.StartSeek(pieces.chunks.lengths, pieces.View().chunks.have, pieces.unnotified, id, to);
    }

    /** Poll against what the tracker has at that moment; the stream parks in the same step. */
    method Poll(s: Storage, id: nat, waker: nat, room: nat) returns (r: Poll)
      requires Valid() && id in streams.streams
      modifies streams
      ensures Valid()
      ensures id in old(streams.readers) &&
        PollAnswer(pieces.chunks.lengths, pieces.View().chunks.have, s, old(streams.readers)[id], room, r)
      ensures r.Pending? ==> streams.parked == old(streams.parked) + {id}
    {
      assert id in streams.readers.Keys;
      r := streams.PollRead(pieces.chunks.lengths, Ones(pieces.chunks.have), pieces.unnotified, s, id, waker, room);
    }

    // ---- Completions -------------------------------------------------------------------

    /** Store the bit field; a failed flush is retried later. */
    method TryFlushBitv(flushOk: bool)
      requires Valid()
      modifies this
      ensures Valid()
      ensures unflushedBitvBytes == if flushOk then 0 else old(unflushedBitvBytes)
    {
      if unflushedBitvBytes == 0 {
        return;
      }
      if flushOk {
        unflushedBitvBytes := 0;
        flushed := pieces.View().chunks.have;
        assert pieces.View().chunks.have - pieces.unnotified - flushed == {};
        WSumEmpty(PieceWeight(pieces.chunks.lengths), 0, pieces.chunks.lengths.TotalPieces());
      }
    }

    /** Count a completed piece towards its files and wake the streams that wait for it. */
    method Announce(id: nat, fileInfos: seq<FileInfo>) returns (woken: set<nat>)
      requires Valid() && fileInfos == pieces.files && id < pieces.chunks.lengths.TotalPieces()
      modifies this`unflushedBitvBytes, pieces, pieces.chunks, streams
      ensures Valid() && pieces.history == old(pieces.history) + [Notify(id)]
      ensures woken == set k | k in old(streams.streams) && WaitsFor(pieces.chunks.lengths, old(streams.streams)[k], id)
      ensures streams.parked == old(streams.parked) - woken
    {
      ghost var l, have, before := pieces.chunks.lengths, pieces.View().chunks.have, pieces.unnotified;
      pieces.OnPieceCompleted(id, fileInfos);
      woken := streams.WakeStreamsOnPieceCompleted(pieces.chunks.lengths, have, before, id);
      OneMorePiece(l, have - before - flushed, have - (before - {id}) - flushed, id);
      PieceLengthNat(l, id);
      unflushedBitvBytes := unflushedBitvBytes + pieces.chunks.lengths.PieceLength(id);
    }

    /** Announce a completed piece: count it towards its files, wake exactly the streams that
        wait for it, and keep the unflushed bytes below the limit while flushes succeed. */
    method OnPieceCompleted(id: nat, fileInfos: seq<FileInfo>, flushOk: bool) returns (finished: bool, woken: set<nat>)
      requires Valid() && fileInfos == pieces.files && id < pieces.chunks.lengths.TotalPieces()
      modifies this, pieces, pieces.chunks, streams
      ensures Valid() && pieces.history == old(pieces.history) + [Notify(id)]
      ensures finished <==> AllSelectedHad(pieces.chunks.lengths, pieces.View())
      ensures woken == set k | k in old(streams.streams) && WaitsFor(pieces.chunks.lengths, old(streams.streams)[k], id)
      ensures streams.parked == old(streams.parked) - woken
      ensures flushOk ==> unflushedBitvBytes < FLUSH_BITV_EVERY_BYTES
      ensures flushOk && finished && id in pieces.View().chunks.selected ==> unflushedBitvBytes == 0
    {
      woken := Announce(id, fileInfos);
      if unflushedBitvBytes >= FLUSH_BITV_EVERY_BYTES {
        TryFlushBitv(flushOk);
      }
      finished := IsFinished();
      PieceBitsFit(pieces.chunks.lengths);
      if finished {
        if pieces.chunks.selected[id] {
          TryFlushBitv(flushOk);
        }
      }
    }

    method IsFinished() returns (finished: bool)
      requires Valid()
      ensures finished <==> AllSelectedHad(pieces.chunks.lengths, pieces.View())
    {
      FinishedMeansAllHad(pieces.chunks.lengths, pieces.View().chunks.have, pieces.View().chunks.selected);
      finished := pieces.chunks.hns.Finished();
    }
  }

  ghost predicate AllSelectedHad(l: Lengths, s: State)
    requires l.Valid()
  {
    forall p :: p < l.TotalPieces() && p in s.chunks.selected ==> p in s.chunks.have
  }

  /** Steps by which no piece becomes had and none is announced. */
  predicate Quiet(step: Step) {
    !step.HashOk? && !step.Notify? && !step.Pause?
  }

  /** Pause and resume a live torrent. The streams live on, but the announcements still to come are
      dropped: every parked stream will still be woken if and only if none stands on a piece that
      is had. */
  method PauseAndResumeLive(t: LiveTorrent) returns (p: PieceTracker)
    requires t.Valid()
    modifies t.pieces, t.pieces.chunks
    ensures fresh(p) && p.Valid() && p.chunks == t.pieces.chunks && p.history == old(t.pieces.history) + [Pause]
    ensures p.unnotified == {} && p.View().chunks.have == old(t.pieces.View()).chunks.have
    ensures t.streams.Valid(p.chunks.lengths, p.View().chunks.have, p.unnotified) <==>
      forall id :: id in t.streams.parked && id in t.streams.streams ==>
        StandsOnMissing(p.chunks.lengths, t.streams.streams[id], p.View().chunks.have)
  {
    t.streams.PauseStrandsNobodyIff(t.pieces.chunks.lengths, t.pieces.View().chunks.have, t.pieces.unnotified);
    RunOneMore(t.pieces.chunks.lengths, t.pieces.files, t.pieces.origin, t.pieces.history, Pause);
    p := PauseAndResume(t.pieces);
  }
}
