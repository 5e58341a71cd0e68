/** The piece tracker: hands pieces to peers, takes them back, and records verdicts. Its ghost
    history makes every theorem about runs a theorem about this object. */
module PieceTracker {
  import opened Prelude
  import opened Lengths
  import opened Files
  import opened ChunkState
  import opened ChunkTracker
  import opened TrackerState
  import opened Acquire
  import opened FileCounts
  import opened ChunkRuns
  import opened DownloadTasks

  class PieceTracker {
    const chunks: ChunkTracker
    var inflight: map<nat, InflightPiece>

    ghost const files: seq<FileInfo>   // the torrent's file list
    ghost const origin: State          // the state the torrent was first built in
    ghost var history: seq<Step>       // every step since then
    ghost var verifying: set<nat>      // taken, verdict pending
    ghost var unnotified: set<nat>     // newly had, announcement pending

    ghost function View(): State
      reads this, chunks
    {
      State(chunks.View(), inflight, verifying, unnotified)
    }

    ghost predicate Valid()
      reads this, chunks
    {
      && chunks.Valid()
      && Tiles(chunks.lengths, files)
      && |chunks.perFileBytes| == |files|
      && (forall p :: p in inflight ==> p < chunks.lengths.TotalPieces())
      && Fresh(chunks.lengths, files, origin)
      && View() == Run(chunks.lengths, files, origin, history)
    }

    /** The state after the first `a` steps. */
    ghost function After(a: nat): State
      reads this
      requires chunks.lengths.Valid() && a <= |history|
    {
      Run(chunks.lengths, files, origin, history[..a])
    }

    /** Wrap a chunk tracker: newly built (`past` is empty) or handed over by a pause. */
    constructor (c: ChunkTracker, ghost fileList: seq<FileInfo>, ghost first: State, ghost past: seq<Step>)
      requires c.Valid() && Tiles(c.lengths, fileList) && Fresh(c.lengths, fileList, first)
      requires |c.perFileBytes| == |fileList|
      requires State(c.View(), map[], {}, {}) == Run(c.lengths, fileList, first, past)
      ensures Valid() && chunks == c && files == fileList && origin == first && history == past
      ensures View() == State(c.View(), map[], {}, {})
    {
      chunks := c;
      inflight := map[];
      files, origin, history := fileList, first, past;
      verifying, unnotified := {}, {};
    }

    /** Consume the tracker: all in-flight pieces are requeued. */
    method IntoChunks() returns (c: ChunkTracker)
      requires Valid()
      modifies this`inflight, this`history, this`verifying, this`unnotified, chunks`queuePieces, chunks`chunkStatus
      ensures c == chunks && c.Valid() && |c.perFileBytes| == |files|
      ensures c.View() == HandOver(c.lengths, old(View()))
      ensures Ones(c.have) == old(Ones(chunks.have)) && Ones(c.selected) == old(Ones(chunks.selected))
      ensures Ones(c.queuePieces) == old(Ones(chunks.queuePieces)) + (old(inflight.Keys) - Ones(c.have))
      ensures c.hns == old(c.hns)
      ensures history == old(history) + [Pause]
      ensures State(c.View(), map[], {}, {}) == Run(c.lengths, files, origin, history)
    {
      RunOneMore(chunks.lengths, files, origin, history, Pause);
      RequeueAll(inflight.Keys);
      c := chunks;
      inflight := map[];
      history, verifying, unnotified := history + [Pause], {}, {};
    }

    /** Requeue the given pieces, in any order. */
    method RequeueAll(pieces: set<nat>)
      requires chunks.Valid()
      requires forall p :: p in pieces ==> p < chunks.lengths.TotalPieces()
      modifies chunks`queuePieces, chunks`chunkStatus
      ensures chunks.Valid()
      ensures chunks.View() == Requeue(chunks.lengths, old(chunks.View()), pieces)
    {
      var left := pieces;
      ghost var start, done: set<nat> := chunks.View(), {};
      ClearNothing(chunks.lengths, chunks.chunkStatus);
      assert {} - start.have == {};
      assert start.queue + {} == start.queue;
      while left != {}
        invariant chunks.Valid()
        invariant left <= pieces && done == pieces - left
        invariant chunks.View() == Requeue(chunks.lengths, start, done)
        decreases left
      {
        var piece :| piece in left;
        ChunkRangeFits(chunks.lengths, piece);
        RequeueOneMore(chunks.lengths, start, done, piece);
        chunks.MarkPieceBrokenIfNotHave(piece);
        left, done := left - {piece}, done + {piece};
      }
      assert done == pieces;
    }

    /** Find the longest-running piece of another peer past the threshold and take it over. */
    method TrySteal(req: AcquireRequest, now: nat, threshold: nat) returns (r: Option<AcquireResult>)
      requires Valid()
      modifies this`inflight, this`history
      ensures Valid()
      ensures r.None? ==>
        StealRefused(old(View()), req, now, threshold) && View() == old(View()) && history == old(history)
      ensures r.Some? ==>
        && r.value.Stolen?
        && LongestStealable(old(View()), req, now, threshold, r.value.piece)
        && req.canSteal(r.value.piece)
        && r.value.fromPeer == old(inflight)[r.value.piece].peer
        && inflight == old(inflight)[r.value.piece := InflightPiece(req.peer, now)]
        && history == old(history) + [Steal(r.value.piece, req.peer, now)]
    {
      ghost var s := View();
      if req.peerAvgTime.None? {
        return None;
      }
      var minElapsed := req.peerAvgTime.value * threshold;
      var best: Option<nat> := None;
      var left := inflight.Keys;
      while left != {}
        invariant left <= inflight.Keys
        invariant best.Some? ==> Stealable(s, req, now, threshold, best.value)
        invariant forall q :: q in inflight && q !in left && Stealable(s, req, now, threshold, q) ==>
          best.Some? && Elapsed(s, q, now) <= Elapsed(s, best.value, now)
        decreases left
      {
        var p :| p in left;
        left := left - {p};
        var elapsed := SaturatingSub(now, inflight[p].started);
        if inflight[p].peer != req.peer && req.peerHasPiece(p) && elapsed >= minElapsed {
          if best.None? || elapsed >= SaturatingSub(now, inflight[best.value].started) {
            best := Some(p);
          }
        }
      }
      if best.None? {
        return None;
      }
      var piece := best.value;
      assert LongestStealable(s, req, now, threshold, piece);
      if !req.canSteal(piece) {
        return None;
      }
      var oldPeer := inflight[piece].peer;
      RunOneMore(chunks.lengths, files, origin, history, Steal(piece, req.peer, now));
      inflight := inflight[piece := InflightPiece(req.peer, now)];
      history := history + [Steal(piece, req.peer, now)];
      return Some(Stolen(piece, oldPeer));
    }

    method ReservePiece(piece: nat, peer: nat, now: nat)
      requires Valid() && piece < chunks.lengths.TotalPieces()
      modifies this`inflight, this`history, chunks`queuePieces
      ensures Valid() && history == old(history) + [Reserve(piece, peer, now)]
      ensures inflight == old(inflight)[piece := InflightPiece(peer, now)]
      ensures Ones(chunks.queuePieces) == old(Ones(chunks.queuePieces)) - {piece}
    {
      RunOneMore(chunks.lengths, files, origin, history, Reserve(piece, peer, now));
      chunks.ReserveNeededPiece(piece);
      inflight := inflight[piece := InflightPiece(peer, now)];
      history := history + [Reserve(piece, peer, now)];
    }

    /** Acquire a piece for a peer; at most one step is made, the one the answer names. */
    method AcquirePiece(req: AcquireRequest, fileInfos: seq<FileInfo>, now: nat) returns (r: AcquireResult)
      requires Valid() && fileInfos == files
      requires forall p :: p in req.priorityPieces ==> p < chunks.lengths.TotalPieces()
      modifies this`inflight, this`history, chunks`queuePieces
      ensures Valid() && Askable(files, old(View()))
      ensures AcquireAnswer(chunks.lengths, files, old(View()), req, now, r)
      ensures history == old(history) + match StepOf(req, now, r) case Some(step) => [step] case None => []
      ensures inflight ==
        if r.NoneAvailable? then old(inflight) else old(inflight)[r.piece := InflightPiece(req.peer, now)]
      ensures Ones(chunks.queuePieces) == old(Ones(chunks.queuePieces)) - if r.Reserved? then {r.piece} else {}
      ensures r.Reserved? ==> exists k: nat :: ChosenAt(old(View()), req, r.piece, k)
      ensures r.Reserved? && NoPriorityFree(old(View()), req) ==>
        Earliest(chunks.lengths, files, old(View()), req, r.piece)
      ensures r.NoneAvailable? ==> forall q: nat, j: nat :: !FetchableAt(chunks.lengths, files, old(View()), req, q, j)
    {
      ghost var s := View();
      ListsAreAskable(chunks.lengths, files, s);
      var stolen := TrySteal(req, now, 10);
      if stolen.Some? {
        return stolen.value;
      }
      var reserved := TryReserve(req, fileInfos, now);
      if reserved.Some? {
        PriorityFirst(chunks.lengths, files, s, req, now, Reserved(reserved.value));
        ReservedIsEarliest(chunks.lengths, files, s, req, now, Reserved(reserved.value));
        return Reserved(reserved.value);
      }
      stolen := TrySteal(req, now, 3);
      if stolen.Some? {
        return stolen.value;
      }
      ReservedIsEarliest(chunks.lengths, files, s, req, now, NoneAvailable);
      return NoneAvailable;
    }

    /** Reserve the first free priority piece, else the first offered piece the peer has. */
    method TryReserve(req: AcquireRequest, fileInfos: seq<FileInfo>, now: nat) returns (r: Option<nat>)
      requires Valid() && fileInfos == files && Askable(files, View())
      requires forall p :: p in req.priorityPieces ==> p < chunks.lengths.TotalPieces()
      modifies this`inflight, this`history, chunks`queuePieces
      ensures Valid()
      ensures r.None? ==>
        NothingToReserve(chunks.lengths, files, old(View()), req) && View() == old(View()) && history == old(history)
      ensures r.Some? ==>
        && FirstToReserve(chunks.lengths, files, old(View()), req, r.value)
        && inflight == old(inflight)[r.value := InflightPiece(req.peer, now)]
        && Ones(chunks.queuePieces) == old(Ones(chunks.queuePieces)) - {r.value}
        && history == old(history) + [Reserve(r.value, req.peer, now)]
    {
      ghost var s := View();
      var k := FindPriority(req);
      if k < |req.priorityPieces| {
        r := Some(req.priorityPieces[k]);
        assert r.value in req.priorityPieces;
        FirstByPriority(chunks.lengths, files, s, req, k);
        ReservePiece(r.value, req.peer, now);
        return;
      }
      var queued := chunks.IterQueuedPieces(req.filePriorities, fileInfos);
      k := FindOffered(req, queued);
      if k < |queued| {
        OfferedIsQueued(chunks.lengths.TotalPieces(), s.chunks.queue, s.chunks.perFile, req.filePriorities, files,
          queued[k]);
        FirstByOffer(chunks.lengths, files, s, req, k);
        r := Some(queued[k]);
        ReservePiece(r.value, req.peer, now);
        return;
      }
      return None;
    }

    /** Index of the first free priority piece. */
    method FindPriority(req: AcquireRequest) returns (k: nat)
      requires Valid()
      requires forall p :: p in req.priorityPieces ==> p < chunks.lengths.TotalPieces()
      ensures k <= |req.priorityPieces|
      ensures if k < |req.priorityPieces| then FirstFreePriority(View(), req, k) else NoPriorityFree(View(), req)
    {
      PieceBitsFit(chunks.lengths);
      k := 0;
      while k < |req.priorityPieces|
        invariant k <= |req.priorityPieces|
        invariant forall j :: 0 <= j < k ==> !FreePriority(View(), req, req.priorityPieces[j])
      {
        var piece := req.priorityPieces[k];
        assert piece in req.priorityPieces;
        if !chunks.have[piece] && piece !in inflight && req.peerHasPiece(piece) {
          return;
        }
        k := k + 1;
      }
    }

    /** Index of the first offered piece the peer has. */
    method FindOffered(req: AcquireRequest, queued: seq<nat>) returns (k: nat)
      ensures k <= |queued|
      ensures if k < |queued| then FirstOffered(queued, req, k) else forall q :: q in queued ==> !req.peerHasPiece(q)
    {
      k := 0;
      while k < |queued|
        invariant k <= |queued|
        invariant forall j :: 0 <= j < k ==> !req.peerHasPiece(queued[j])
      {
        if req.peerHasPiece(queued[k]) {
          return;
        }
        k := k + 1;
      }
    }

    /** Stop tracking a piece whose chunks have all arrived; its verdict is now pending. */
    method TakeInflight(piece: nat, now: nat) returns (r: Option<nat>)
      requires Valid() && piece < chunks.lengths.TotalPieces()
      modifies this`inflight, this`history, this`verifying
      ensures Valid() && history == old(history) + [Take(piece)]
      ensures inflight == old(inflight) - {piece}
      ensures verifying == old(verifying) + if piece in old(inflight) then {piece} else {}
      ensures r == if piece in old(inflight) then Some(SaturatingSub(now, old(inflight)[piece].started)) else None
    {
      RunOneMore(chunks.lengths, files, origin, history, Take(piece));
      history := history + [Take(piece)];
      if piece !in inflight {
        return None;
      }
      r := Some(SaturatingSub(now, inflight[piece].started));
      inflight := inflight - {piece};
      verifying := verifying + {piece};
    }

    method MarkPieceHashOk(piece: nat)
      requires Valid() && piece < chunks.lengths.TotalPieces()
      modifies this`history, this`verifying, this`unnotified, chunks`have, chunks`hns
      ensures Valid() && history == old(history) + [HashOk(piece)]
      ensures chunks.View().have == old(chunks.View().have) + {piece}
      ensures unnotified == old(unnotified) + ({piece} - old(chunks.View().have))
      ensures verifying == old(verifying) - {piece}
    {
      RunOneMore(chunks.lengths, files, origin, history, HashOk(piece));
      unnotified := unnotified + ({piece} - chunks.View().have);
      chunks.MarkPieceDownloaded(piece);
      verifying := verifying - {piece};
      history := history + [HashOk(piece)];
    }

    method MarkPieceHashFailed(piece: nat)
      requires Valid() && piece < chunks.lengths.TotalPieces()
      modifies this`history, this`verifying, chunks`queuePieces, chunks`chunkStatus
      ensures Valid() && history == old(history) + [HashFailed(piece)]
      ensures Ones(chunks.queuePieces) == old(Ones(chunks.queuePieces)) + ({piece} - Ones(chunks.have))
      ensures verifying == old(verifying) - {piece}
    {
      RunOneMore(chunks.lengths, files, origin, history, HashFailed(piece));
      chunks.MarkPieceBrokenIfNotHave(piece);
      verifying := verifying - {piece};
      history := history + [HashFailed(piece)];
    }

    /** Give back everything a dead peer was downloading; returns how many pieces that was. */
    method ReleasePiecesOwnedBy(peer: nat) returns (count: nat)
      requires Valid()
      modifies this`inflight, this`history, chunks`queuePieces, chunks`chunkStatus
      ensures Valid() && history == old(history) + [Release(peer)]
      ensures count == |OwnedBy(old(inflight), peer)|
      ensures inflight == map p | p in old(inflight) && old(inflight)[p].peer != peer :: old(inflight)[p]
      ensures Ones(chunks.queuePieces) == old(Ones(chunks.queuePieces)) +
        (set p | p in old(inflight) && old(inflight)[p].peer == peer && p !in Ones(chunks.have))
    {
      RunOneMore(chunks.lengths, files, origin, history, Release(peer));
      var pieces := OwnedBy(inflight, peer);
      count := |pieces|;
      RequeueAll(pieces);
      assert chunks.View() == Requeue(chunks.lengths, old(chunks.View()), OwnedBy(old(inflight), peer));
      OwnedSplit(inflight, peer);
      inflight := inflight - pieces;
      history := history + [Release(peer)];
    }

    method MarkChunkDownloaded(piece: nat, begin: nat, size: nat) returns (r: Option<ChunkMarkingResult>)
      requires Valid()
      modifies this`history, chunks`chunkStatus
      ensures Valid()
      ensures r.Some? <==>
        piece < chunks.lengths.TotalPieces() && chunks.lengths.ChunkOfReceived(piece, begin, size).Some?
      ensures r.Some? <==>
        && piece < chunks.lengths.TotalPieces() && begin % CHUNK_SIZE == 0 && begin < chunks.lengths.PieceLength(piece)
        && size == Min(CHUNK_SIZE, chunks.lengths.PieceLength(piece) - begin)
      ensures history == old(history) + if r.Some? then [ReceiveChunk(piece, begin / CHUNK_SIZE)] else []
      ensures r.Some? ==>
        var i := chunks.lengths.ChunkOfReceived(piece, begin, size).value;
        && chunks.lengths.ChunkEnd(piece) <= |chunks.chunkStatus|
        && |chunks.chunkStatus| == |old(chunks.chunkStatus)|
        && r.value == Deliver(chunks.lengths, old(View()).chunks, piece, i).1
    {
      r := chunks.MarkChunkDownloaded(piece, begin, size);
      if r.Some? {
        ghost var i := chunks.lengths.ChunkOfReceived(piece, begin, size).value;
        RunOneMore(chunks.lengths, files, origin, history, ReceiveChunk(piece, i));
        history := history + [ReceiveChunk(piece, i)];
      }
    }

    method UpdateOnlyFiles(fileInfos: seq<FileInfo>, only: set<nat>) returns (h: HaveNeededSelected)
      requires Valid() && fileInfos == files
      modifies this`history, chunks`queuePieces, chunks`chunkStatus, chunks`selected, chunks`hns
      ensures Valid() && history == old(history) + [SelectFiles(only)]
      ensures h == HnsOf(chunks.lengths, Ones(chunks.have), Ones(chunks.selected))
      ensures forall p: nat :: p in Ones(chunks.selected) <==>
        exists i: nat :: ChosenFor(chunks.lengths, files, only, p, i)
    {
      RunOneMore(chunks.lengths, files, origin, history, SelectFiles(only));
      h := chunks.UpdateOnlyFiles(fileInfos, only);
      history := history + [SelectFiles(only)];
    }

    /** Announce a completed piece to the counters of the files the scan reaches. */
    method OnPieceCompleted(id: nat, fileInfos: seq<FileInfo>)
      requires Valid() && fileInfos == files && id < chunks.lengths.TotalPieces()
      modifies this`history, this`unnotified, chunks`perFileBytes
      ensures Valid() && history == old(history) + [Notify(id)]
      ensures unnotified == old(unnotified) - {id}
    {
      ghost var s := View();
      RunOneMore(chunks.lengths, files, origin, history, Notify(id));
      CountTowardsFiles(id, fileInfos);
      assert chunks.View() ==
        old(chunks.View()).(perFile := CountPiece(chunks.lengths, files, old(chunks.perFileBytes), id));
      unnotified := unnotified - {id};
      history := history + [Notify(id)];
      assert View() == Apply(chunks.lengths, files, s, Notify(id));
    }

    /** Skip to the first file that lists the piece, then update files until one does not. */
    method CountTowardsFiles(id: nat, fileInfos: seq<FileInfo>)
      requires chunks.Valid() && |chunks.perFileBytes| == |fileInfos|
      modifies chunks`perFileBytes
      ensures chunks.perFileBytes == CountPiece(chunks.lengths, fileInfos, old(chunks.perFileBytes), id)
    {
      ghost var before := chunks.perFileBytes;
      var idx := 0;
      while idx < |fileInfos| && !ContainsPiece(fileInfos[idx], id)
        invariant 0 <= idx <= |fileInfos|
        invariant forall j :: 0 <= j < idx ==> !ContainsPiece(fileInfos[j], id)
      {
        idx := idx + 1;
      }
      ghost var k := SkipTo(fileInfos, id, 0);
      assert idx == k;
      while idx < |fileInfos| && ContainsPiece(fileInfos[idx], id)
        invariant k <= idx <= |fileInfos|
        invariant forall j :: k <= j < idx ==> ContainsPiece(fileInfos[j], id)
        invariant |chunks.perFileBytes| == |fileInfos|
        invariant forall j :: 0 <= j < |fileInfos| ==>
          chunks.perFileBytes[j] == before[j] +
            if k <= j < idx then chunks.lengths.SizeOfPieceInFile(id, fileInfos[j].offset, fileInfos[j].len) else 0
      {
        var _ := chunks.UpdateFileHaveOnPieceCompleted(id, idx, fileInfos[idx]);
        idx := idx + 1;
      }
      assert idx == TakeTo(fileInfos, id, k);
    }
  }

  lemma ListsAreAskable(l: Lengths, files: seq<FileInfo>, s: State)
    requires Tiles(l, files) && |s.chunks.perFile| == |files|
    ensures Askable(files, s)
  {
    forall i | 0 <= i < |files|
      ensures files[i].firstPiece <= files[i].endPiece
    {
      assert InPlace(l, files, i);
      PieceInFileRange(l, 0, files[i].offset, files[i].len);
    }
  }

  /** Start tracking a torrent from what an initial check found and the user selected. */
  method Start(havePieces: seq<bool>, selectedPieces: seq<bool>, l: Lengths, files: seq<FileInfo>)
    returns (r: Result<PieceTracker>)
    requires Tiles(l, files) && |selectedPieces| == l.PieceBits()
    ensures r.Err? <==> |havePieces| != |selectedPieces|
    ensures r.Ok? ==> fresh(r.value) && r.value.Valid() && r.value.history == [] && r.value.files == files
    ensures r.Ok? ==>
      r.value.View().chunks.have == Ones(havePieces) && r.value.View().chunks.selected == Ones(selectedPieces)
    ensures r.Ok? ==>
      r.value.View().chunks.queue == Ones(selectedPieces) - Ones(havePieces) && r.value.inflight == map[]
    ensures r.Ok? ==> ChunksFollowHave(l, r.value.View().chunks) && Fresh(l, files, r.value.View())
    ensures r.Ok? ==> Begins(l, files, World(r.value.View(), map[], {}))
  {
    PieceBitsFit(l);
    var ct := ChunkTracker.New(havePieces, selectedPieces, l, files);
    if ct.Err? {
      return Err(ct.error);
    }
    ghost var first := State(ct.value.View(), map[], {}, {});
    var t := new PieceTracker(ct.value, files, first, []);
    return Ok(t);
  }

  /** Pause and resume: the hand-over is what a new tracker may start from, and its history goes
      on where the old one stopped. */
  method PauseAndResume(t: PieceTracker) returns (t': PieceTracker)
    requires t.Valid()
    modifies t`inflight, t`history, t`verifying, t`unnotified, t.chunks`queuePieces, t.chunks`chunkStatus
    ensures fresh(t') && t'.Valid() && t'.chunks == t.chunks && t'.inflight == map[]
    ensures t'.files == t.files && t'.origin == t.origin && t'.history == old(t.history) + [Pause]
  {
    var c := t.IntoChunks();
    t' := new PieceTracker(c, t.files, t.origin, t.history);
  }

  /** Every theorem about runs therefore holds of the object itself, whatever was called: as
      long as pauses are safe nothing needed is lost, and the cached statistics tell exactly
      whether everything selected is had. */
  lemma TrackerLosesNothing(t: PieceTracker)
    requires t.Valid() && SafePauses(t.chunks.lengths, t.files, t.origin, t.history)
    ensures NoneLost(t.View())
    ensures t.chunks.hns.Finished() <==>
      forall p :: p < t.chunks.lengths.TotalPieces() && p in t.View().chunks.selected ==> p in t.View().chunks.have
    ensures t.chunks.hns.neededBytes <= t.chunks.hns.selectedBytes
  {
    NoPieceLost(t.chunks.lengths, t.files, t.origin, t.history);
    FinishedMeansAllHad(t.chunks.lengths, t.View().chunks.have, t.View().chunks.selected);
  }

  /** ... and each piece has exactly one status at every point of the history, if and only if every
      call kept the states apart and every pause was safe. */
  lemma TrackerHasOneStatus(t: PieceTracker)
    requires t.Valid()
    ensures (forall k :: 0 <= k <= |t.history| ==> OneStatusEach(t.After(k))) <==>
            (forall k :: 0 <= k < |t.history| ==> KeepsStatus(t.chunks.lengths, t.files, t.After(k), t.history[k]))
    ensures t.After(|t.history|) == t.View()
  {
    var l, files, s, steps := t.chunks.lengths, t.files, t.origin, t.history;
    assert steps[..|steps|] == steps;
    FreshHasOneStatus(l, files, s);
    ExactlyOneStatus(l, files, s, steps, |steps|);
    assert forall k :: 0 <= k <= |steps| ==> (OneStatusAfter(l, files, s, steps, k) <==> OneStatusEach(t.After(k)));
    assert forall k :: 0 <= k < |steps| ==>
      (StatusKeptAt(l, files, s, steps, k) <==> KeepsStatus(l, files, t.After(k), steps[k]));
  }

  /** A tracker that was told of each completion once, whatever else was called: the byte counters
      never overstate, so every missing queued piece is among those it offers. */
  lemma TrackerHidesNothing(t: PieceTracker, priorities: seq<nat>, p: nat)
    requires t.Valid() && AnnouncedOnce(t.chunks.lengths, t.files, t.origin, t.history)
    requires forall i :: 0 <= i < |t.files| ==> i in priorities
    requires p < t.chunks.lengths.TotalPieces() && p !in t.View().chunks.have
    ensures CountsWithin(t.chunks.lengths, t.files, t.chunks.perFileBytes, t.View().chunks.have)
    ensures (forall i :: 0 <= i < |t.files| ==> t.files[i].firstPiece <= t.files[i].endPiece)
    ensures p in t.chunks.IterQueuedPieces(priorities, t.files) <==> p in t.View().chunks.queue
  {
    CountsNeverOverstate(t.chunks.lengths, t.files, t.origin, t.history);
    ShortcutHidesNothing(t.chunks.lengths, t.files, t.origin, t.history, priorities, p);
  }

  /** What the tracker has recorded of a piece since its chunks were last forgotten (step `a` of the
      history): exactly the distinct chunks delivered since. It reported completion at most once
      since then, and did so if and only if they are all there. */
  lemma TrackerCompletesOnce(t: PieceTracker, p: nat, a: nat)
    requires t.Valid() && a <= |t.history|
    requires FromCleared(t.chunks.lengths, t.files, t.After(a), t.history[a..], p)
    ensures var l, s, since := t.chunks.lengths, t.After(a), t.history[a..];
      && l.ChunkEnd(p) <= |t.chunks.chunkStatus|
      && Received(l, t.chunks.chunkStatus, p) == Indices(l, p, since)
      && (forall j, k :: CompletedAt(l, t.files, s, since, p, j) && CompletedAt(l, t.files, s, since, p, k) ==> j == k)
      && ((exists k :: CompletedAt(l, t.files, s, since, p, k)) <==>
          AllSet(t.chunks.chunkStatus, l.ChunkStart(p), l.ChunkEnd(p)))
      && ((exists k :: CompletedAt(l, t.files, s, since, p, k)) <==> AllBytesCovered(l, since, p))
  {
    var l, s, since := t.chunks.lengths, t.After(a), t.history[a..];
    assert t.history == t.history[..a] + since && since[..|since|] == since;
    RunInParts(l, t.files, t.origin, t.history[..a], since);
    ReceivedIsDelivered(l, t.files, s, since, p, |since|);
    CompletesExactlyOnce(l, t.files, s, since, p);
    CompletesWhenCovered(l, t.files, s, since, p, 0);
    AllSetMeansAll(l, t.chunks.chunkStatus, p);
  }
}
