/** Chunk deliveries over whole runs of the download state: when does a piece report completion? */
module ChunkRuns {
  import opened Prelude
  import opened Lengths
  import opened Files
  import opened ChunkState
  import opened TrackerState

  /** The chunks of `p` recorded in the bit field. */
  ghost function Received(l: Lengths, bits: seq<bool>, p: nat): set<nat>
    requires l.ChunkEnd(p) <= |bits|
  {
    Ones(bits[l.ChunkStart(p)..l.ChunkEnd(p)])
  }

  ghost function AllChunks(l: Lengths, p: nat): set<nat> {
    Ones(seq(l.ChunksOf(p), _ => true))
  }

  ghost predicate Fits(l: Lengths, s: State)
    requires l.Valid()
  {
    |s.chunks.chunkStatus| == l.ChunkBits()
  }

  /** A delivery adds one chunk to its own piece, and is answered by the chunks recorded. */
  lemma DeliveryToOwnPiece(l: Lengths, c: ChunkState, q: nat, i: nat)
    requires l.ChunkEnd(q) <= |c.chunkStatus| && i < l.ChunksOf(q)
    ensures Received(l, Deliver(l, c, q, i).0.chunkStatus, q) == Received(l, c.chunkStatus, q) + {i}
    ensures Deliver(l, c, q, i).1
         == if Received(l, c.chunkStatus, q) == AllChunks(l, q) then PreviouslyCompleted
            else if Received(l, c.chunkStatus, q) + {i} == AllChunks(l, q) then Completed
            else NotCompleted
  {
    AllSetMeansAll(l, c.chunkStatus, q);
    var bits := c.chunkStatus[l.ChunkStart(q) + i := true];
    AllSetMeansAll(l, bits, q);
    assert Received(l, bits, q) == Received(l, c.chunkStatus, q) + {i};
    if AllSet(c.chunkStatus, l.ChunkStart(q), l.ChunkEnd(q)) {
      assert i in AllChunks(l, q);
      assert Received(l, c.chunkStatus, q) + {i} == Received(l, c.chunkStatus, q);
    }
  }

  /** ... and touches no other piece. */
  lemma DeliveryToOtherPiece(l: Lengths, c: ChunkState, q: nat, i: nat, p: nat)
    requires l.ChunkEnd(p) <= |c.chunkStatus| && l.ChunkEnd(q) <= |c.chunkStatus| && i < l.ChunksOf(q)
    requires l.ChunkEnd(p) <= l.ChunkStart(q) || l.ChunkEnd(q) <= l.ChunkStart(p)
    ensures Received(l, Deliver(l, c, q, i).0.chunkStatus, p) == Received(l, c.chunkStatus, p)
  {
    var bits := c.chunkStatus[l.ChunkStart(q) + i := true];
    assert bits[l.ChunkStart(p)..l.ChunkEnd(p)] == c.chunkStatus[l.ChunkStart(p)..l.ChunkEnd(p)];
  }

  lemma AllSetMeansAll(l: Lengths, bits: seq<bool>, p: nat)
    requires l.ChunkEnd(p) <= |bits|
    ensures AllSet(bits, l.ChunkStart(p), l.ChunkEnd(p)) <==> Received(l, bits, p) == AllChunks(l, p)
  {
    if Received(l, bits, p) == AllChunks(l, p) {
      forall i | l.ChunkStart(p) <= i < l.ChunkEnd(p)
        ensures bits[i]
      {
        assert i - l.ChunkStart(p) in AllChunks(l, p);
      }
    }
  }

  /** Requeueing forgets the chunks of exactly the requeued pieces that are not had. */
  lemma RequeueEffect(l: Lengths, c: ChunkState, ps: set<nat>, p: nat)
    requires l.Valid() && |c.chunkStatus| == l.ChunkBits() && p < l.TotalPieces()
    ensures l.ChunkEnd(p) <= |c.chunkStatus|
    ensures Received(l, Requeue(l, c, ps).chunkStatus, p)
         == if p in ps - c.have then {} else Received(l, c.chunkStatus, p)
  {
    ChunkRangeFits(l, p);
    forall i | l.ChunkStart(p) <= i < l.ChunkEnd(p)
      ensures InChunksOf(l, ps - c.have, i) <==> p in ps - c.have
    {
      if InChunksOf(l, ps - c.have, i) {
        var q :| q in ps - c.have && l.ChunkStart(q) <= i < l.ChunkEnd(q);
        SharedChunkBit(l, p, q, i);
      }
    }
  }

  /** A chunk bit belongs to one piece only; there are none past the last piece. */
  lemma SharedChunkBit(l: Lengths, p: nat, q: nat, i: nat)
    requires l.Valid() && p < l.TotalPieces()
    requires l.ChunkStart(p) <= i < l.ChunkEnd(p) && l.ChunkStart(q) <= i < l.ChunkEnd(q)
    ensures p == q
  {
    if q >= l.TotalPieces() {
      PiecesTile(l, q);
    } else if q < p {
      ChunkRangesDisjoint(l, q, p);
    } else if p < q {
      ChunkRangesDisjoint(l, p, q);
    }
  }

  // ---- One step -----------------------------------------------------------------------

  /** The step records a chunk of `p`. */
  predicate Delivers(l: Lengths, step: Step, p: nat) {
    step.ReceiveChunk? && step.piece == p && step.index < l.ChunksOf(p)
  }

  /** The pieces whose chunks a step forgets. */
  ghost function ClearedBy(l: Lengths, files: seq<FileInfo>, s: State, step: Step): set<nat>
    requires l.Valid()
  {
    match step
    case HashFailed(p) => {p} - s.chunks.have
    case Release(peer) => OwnedBy(s.inflight, peer) - s.chunks.have
    case SelectFiles(only) => SelectedBy(l, files, only) - s.chunks.selected - s.chunks.have
    case Pause => s.inflight.Keys - s.chunks.have
    case _ => {}
  }

  lemma DeliveryEffect(l: Lengths, s: State, q: nat, i: nat, p: nat)
    requires l.Valid() && Fits(l, s) && p < l.TotalPieces()
    requires i < l.ChunksOf(q) && l.ChunkEnd(q) <= |s.chunks.chunkStatus|
    ensures l.ChunkEnd(p) <= |s.chunks.chunkStatus|
    ensures Received(l, Deliver(l, s.chunks, q, i).0.chunkStatus, p)
         == Received(l, s.chunks.chunkStatus, p) + if q == p then {i} else {}
  {
    ChunkRangeFits(l, p);
    if q == p {
      DeliveryToOwnPiece(l, s.chunks, p, i);
    } else {
      if q >= l.TotalPieces() {
        PiecesTile(l, q);
      } else if p < q {
        ChunkRangesDisjoint(l, p, q);
      } else {
        ChunkRangesDisjoint(l, q, p);
      }
      DeliveryToOtherPiece(l, s.chunks, q, i, p);
    }
  }

  /** Whatever the step, the recorded chunks of a piece are forgotten, gain the delivered one, or
      stay. */
  lemma StepEffect(l: Lengths, files: seq<FileInfo>, s: State, step: Step, p: nat)
    requires l.Valid() && Fits(l, s) && p < l.TotalPieces()
    ensures Fits(l, Apply(l, files, s, step)) && l.ChunkEnd(p) <= |s.chunks.chunkStatus|
    ensures Received(l, Apply(l, files, s, step).chunks.chunkStatus, p)
         == if p in ClearedBy(l, files, s, step) then {}
            else Received(l, s.chunks.chunkStatus, p) + if Delivers(l, step, p) then {step.index} else {}
  {
    ChunkRangeFits(l, p);
    match step
    case ReceiveChunk(q, i) =>
      if i < l.ChunksOf(q) && l.ChunkEnd(q) <= |s.chunks.chunkStatus| {
        DeliveryEffect(l, s, q, i, p);
      }
    case HashFailed(q) => RequeueEffect(l, s.chunks, {q}, p);
    case Release(peer) => RequeueEffect(l, s.chunks, OwnedBy(s.inflight, peer), p);
    case Pause => RequeueEffect(l, s.chunks, s.inflight.Keys, p);
    case SelectFiles(only) => RequeueEffect(l, s.chunks, SelectedBy(l, files, only) - s.chunks.selected, p);
    case _ =>
  }

  /** Every chunk of `p` is recorded. */
  ghost predicate Full(l: Lengths, s: State, p: nat) {
    l.ChunkEnd(p) <= |s.chunks.chunkStatus| && AllSet(s.chunks.chunkStatus, l.ChunkStart(p), l.ChunkEnd(p))
  }

  /** A delivery of chunk `i` of `p` is answered `Completed`. */
  ghost predicate Completes(l: Lengths, s: State, p: nat, i: nat) {
    && i < l.ChunksOf(p) && l.ChunkEnd(p) <= |s.chunks.chunkStatus|
    && Deliver(l, s.chunks, p, i).1 == Completed
  }

  /** Once all its chunks are recorded a piece stays so until a step forgets them, and every further
      delivery is answered "previously completed"; it becomes so only by a completing delivery. */
  lemma FullExactly(l: Lengths, files: seq<FileInfo>, s: State, step: Step, p: nat)
    requires l.Valid() && Fits(l, s) && p < l.TotalPieces()
    ensures Fits(l, Apply(l, files, s, step))
    ensures Full(l, Apply(l, files, s, step), p) <==>
      p !in ClearedBy(l, files, s, step) &&
      (Full(l, s, p) || (step.ReceiveChunk? && step.piece == p && Completes(l, s, p, step.index)))
    ensures l.ChunkEnd(p) <= |s.chunks.chunkStatus|
    ensures forall i: nat :: i < l.ChunksOf(p) && Full(l, s, p) ==>
      Deliver(l, s.chunks, p, i) == (s.chunks, PreviouslyCompleted)
  {
    ChunkRangeFits(l, p);
    ChunkCounts(l, p);
    StepEffect(l, files, s, step, p);
    AllSetMeansAll(l, s.chunks.chunkStatus, p);
    AllSetMeansAll(l, Apply(l, files, s, step).chunks.chunkStatus, p);
    assert 0 in AllChunks(l, p);
    if Delivers(l, step, p) {
      DeliveryToOwnPiece(l, s.chunks, p, step.index);
    }
  }

  // ---- Runs ---------------------------------------------------------------------------

  /** The distinct chunks of `p` delivered by the steps so far. */
  ghost function Indices(l: Lengths, p: nat, steps: seq<Step>): set<nat>
    decreases |steps|
  {
    if steps == [] then {}
    else
      var step := steps[|steps| - 1];
      Indices(l, p, steps[..|steps| - 1]) + if Delivers(l, step, p) then {step.index} else {}
  }

  ghost predicate NotClearedAt(l: Lengths, files: seq<FileInfo>, s: State, steps: seq<Step>, p: nat, k: nat)
    requires l.Valid() && k < |steps|
  {
    p !in ClearedBy(l, files, Run(l, files, s, steps[..k]), steps[k])
  }

  /** `p` starts with no chunk recorded and no step of the run forgets its chunks; everything else
      may happen, to `p` and to other pieces. */
  ghost predicate FromCleared(l: Lengths, files: seq<FileInfo>, s: State, steps: seq<Step>, p: nat) {
    && l.Valid() && Fits(l, s) && p < l.TotalPieces()
    && l.ChunkEnd(p) <= |s.chunks.chunkStatus| && Received(l, s.chunks.chunkStatus, p) == {}
    && forall k :: 0 <= k < |steps| ==> NotClearedAt(l, files, s, steps, p, k)
  }

  /** A step that forgets a piece's chunks starts it over. */
  lemma ClearStartsOver(l: Lengths, files: seq<FileInfo>, s: State, step: Step, p: nat)
    requires l.Valid() && Fits(l, s) && p < l.TotalPieces() && p in ClearedBy(l, files, s, step)
    ensures FromCleared(l, files, Apply(l, files, s, step), [], p)
  {
    StepEffect(l, files, s, step, p);
  }

  /** ... and each further step that does not forget them continues the run. */
  lemma ClearedRunGoesOn(l: Lengths, files: seq<FileInfo>, s: State, steps: seq<Step>, step: Step, p: nat)
    requires l.Valid()
    ensures FromCleared(l, files, s, steps + [step], p) <==>
      FromCleared(l, files, s, steps, p) && p !in ClearedBy(l, files, Run(l, files, s, steps), step)
  {
    var more := steps + [step];
    assert forall k :: 0 <= k <= |steps| ==> more[..k] == steps[..k];
    assert steps[..|steps|] == steps;
    assert forall k :: 0 <= k < |steps| ==>
      (NotClearedAt(l, files, s, more, p, k) <==> NotClearedAt(l, files, s, steps, p, k));
    assert NotClearedAt(l, files, s, more, p, |steps|) <==> p !in ClearedBy(l, files, Run(l, files, s, steps), step);
  }

  /** Between two clears the recorded chunks of `p` are exactly the distinct ones delivered. */
  lemma {:induction false} ReceivedIsDelivered(l: Lengths, files: seq<FileInfo>, s: State, steps: seq<Step>, p: nat,
      n: nat)
    requires FromCleared(l, files, s, steps, p) && n <= |steps|
    ensures Fits(l, Run(l, files, s, steps[..n])) && l.ChunkEnd(p) <= |Run(l, files, s, steps[..n]).chunks.chunkStatus|
    ensures Received(l, Run(l, files, s, steps[..n]).chunks.chunkStatus, p) == Indices(l, p, steps[..n])
  {
    ChunkRangeFits(l, p);
    if n > 0 {
      var before := steps[..n - 1];
      ReceivedIsDelivered(l, files, s, steps, p, n - 1);
      assert steps[..n][..n - 1] == before;
      assert NotClearedAt(l, files, s, steps, p, n - 1);
      StepEffect(l, files, Run(l, files, s, before), steps[n - 1], p);
    }
  }

  /** The answer step `k` gets, if it delivers a chunk of `p`. */
  ghost function Answer(l: Lengths, files: seq<FileInfo>, s: State, steps: seq<Step>, p: nat,
      k: nat): ChunkMarkingResult
    requires FromCleared(l, files, s, steps, p) && k < |steps| && Delivers(l, steps[k], p)
  {
    ReceivedIsDelivered(l, files, s, steps, p, k);
    Deliver(l, Run(l, files, s, steps[..k]).chunks, p, steps[k].index).1
  }

  /** Starting from a cleared piece, each delivery is answered by the set of distinct chunks
      delivered so far: the one that fills the set gets `Completed`, all later ones
      `PreviouslyCompleted`. */
  lemma AnswerByDistinctChunks(l: Lengths, files: seq<FileInfo>, s: State, steps: seq<Step>, p: nat, k: nat)
    requires FromCleared(l, files, s, steps, p) && k < |steps| && Delivers(l, steps[k], p)
    ensures Answer(l, files, s, steps, p, k)
         == if Indices(l, p, steps[..k]) == AllChunks(l, p) then PreviouslyCompleted
            else if Indices(l, p, steps[..k + 1]) == AllChunks(l, p) then Completed
            else NotCompleted
  {
    ReceivedIsDelivered(l, files, s, steps, p, k);
    DeliveryToOwnPiece(l, Run(l, files, s, steps[..k]).chunks, p, steps[k].index);
    assert steps[..k + 1][..k] == steps[..k];
  }

  lemma {:induction false} IndicesGrow(l: Lengths, p: nat, steps: seq<Step>, j: nat, k: nat)
    requires j <= k <= |steps|
    ensures Indices(l, p, steps[..j]) <= Indices(l, p, steps[..k]) <= AllChunks(l, p)
    decreases k
  {
    if k > 0 {
      assert steps[..k][..k - 1] == steps[..k - 1];
      IndicesGrow(l, p, steps, if j < k then j else k - 1, k - 1);
    }
  }

  ghost predicate CompletedAt(l: Lengths, files: seq<FileInfo>, s: State, steps: seq<Step>, p: nat, k: nat)
    requires FromCleared(l, files, s, steps, p)
  {
    k < |steps| && Delivers(l, steps[k], p) && Answer(l, files, s, steps, p, k) == Completed
  }

  /** In any run of the download state, between two clears of a piece it completes at most once,
      and it completes if and only if every one of its chunks is delivered. */
  lemma CompletesExactlyOnce(l: Lengths, files: seq<FileInfo>, s: State, steps: seq<Step>, p: nat)
    requires FromCleared(l, files, s, steps, p)
    ensures forall j, k :: CompletedAt(l, files, s, steps, p, j) && CompletedAt(l, files, s, steps, p, k) ==> j == k
    ensures (exists k :: CompletedAt(l, files, s, steps, p, k)) <==> Indices(l, p, steps) == AllChunks(l, p)
  {
    forall j, k | CompletedAt(l, files, s, steps, p, j) && CompletedAt(l, files, s, steps, p, k)
      ensures j == k
    {
      CompletedOnceOrdered(l, files, s, steps, p, j, k);
      CompletedOnceOrdered(l, files, s, steps, p, k, j);
    }
    if k :| CompletedAt(l, files, s, steps, p, k) {
      CompletionMeansFull(l, files, s, steps, p, k);
    }
    if Indices(l, p, steps) == AllChunks(l, p) {
      FullMeansCompletion(l, files, s, steps, p);
    }
  }

  // ---- Completion by bytes --------------------------------------------------------------

  /** The step delivers a block of `p` that holds its byte `o`. */
  predicate CoversByte(l: Lengths, step: Step, p: nat, o: nat) {
    step.ReceiveChunk? && step.piece == p && o < l.PieceLength(p) &&
    step.index * CHUNK_SIZE <= o < (step.index + 1) * CHUNK_SIZE
  }

  ghost predicate ByteCovered(l: Lengths, steps: seq<Step>, p: nat, o: nat) {
    exists k :: 0 <= k < |steps| && CoversByte(l, steps[k], p, o)
  }

  /** Every byte of `p` was in a delivered block. */
  ghost predicate AllBytesCovered(l: Lengths, steps: seq<Step>, p: nat) {
    forall o: nat :: o < l.PieceLength(p) ==> ByteCovered(l, steps, p, o)
  }

  lemma {:induction false} IndicesMember(l: Lengths, p: nat, steps: seq<Step>, i: nat)
    ensures i in Indices(l, p, steps) <==>
      i < l.ChunksOf(p) && exists k :: 0 <= k < |steps| && steps[k] == ReceiveChunk(p, i)
    decreases |steps|
  {
    if steps != [] {
      var last := |steps| - 1;
      IndicesMember(l, p, steps[..last], i);
      if k :| 0 <= k < |steps| && steps[k] == ReceiveChunk(p, i) {
        assert k < last ==> steps[..last][k] == ReceiveChunk(p, i);
      }
    }
  }

  lemma ByteCoveredIff(l: Lengths, p: nat, steps: seq<Step>, o: nat)
    requires l.Valid() && p < l.TotalPieces() && o < l.PieceLength(p)
    ensures o / CHUNK_SIZE < l.ChunksOf(p)
    ensures ByteCovered(l, steps, p, o) <==> o / CHUNK_SIZE in Indices(l, p, steps)
  {
    ChunksCoverPiece(l, p, o, o / CHUNK_SIZE);
    IndicesMember(l, p, steps, o / CHUNK_SIZE);
    if k :| 0 <= k < |steps| && CoversByte(l, steps[k], p, o) {
      assert steps[k] == ReceiveChunk(p, o / CHUNK_SIZE);
    }
    if k :| 0 <= k < |steps| && steps[k] == ReceiveChunk(p, o / CHUNK_SIZE) {
      assert CoversByte(l, steps[k], p, o);
    }
  }

  /** All chunks are delivered exactly when all bytes are. */
  lemma AllChunksIsAllBytes(l: Lengths, p: nat, steps: seq<Step>)
    requires l.Valid() && p < l.TotalPieces()
    ensures Indices(l, p, steps) == AllChunks(l, p) <==> AllBytesCovered(l, steps, p)
  {
    IndicesGrow(l, p, steps, |steps|, |steps|);
    assert steps[..|steps|] == steps;
    forall o: nat | o < l.PieceLength(p)
      ensures o / CHUNK_SIZE in AllChunks(l, p)
      ensures ByteCovered(l, steps, p, o) <==> o / CHUNK_SIZE in Indices(l, p, steps)
    {
      ByteCoveredIff(l, p, steps, o);
    }
    if AllBytesCovered(l, steps, p) {
      forall i | i in AllChunks(l, p)
        ensures i in Indices(l, p, steps)
      {
        ChunksTilePiece(l, p, i, 0, 0);
        assert i * CHUNK_SIZE / CHUNK_SIZE == i;
        assert ByteCovered(l, steps, p, i * CHUNK_SIZE);
      }
    }
  }

  /** Since its last clear, a piece reports completion if and only if every one of its bytes was in a
      delivered block; the report comes with the delivery that makes it so. */
  lemma CompletesWhenCovered(l: Lengths, files: seq<FileInfo>, s: State, steps: seq<Step>, p: nat, k: nat)
    requires FromCleared(l, files, s, steps, p)
    ensures (exists j :: CompletedAt(l, files, s, steps, p, j)) <==> AllBytesCovered(l, steps, p)
    ensures CompletedAt(l, files, s, steps, p, k) <==>
      k < |steps| && AllBytesCovered(l, steps[..k + 1], p) && !AllBytesCovered(l, steps[..k], p)
  {
    CompletesExactlyOnce(l, files, s, steps, p);
    AllChunksIsAllBytes(l, p, steps);
    if k < |steps| {
      AllChunksIsAllBytes(l, p, steps[..k]);
      AllChunksIsAllBytes(l, p, steps[..k + 1]);
      assert steps[..k + 1][..k] == steps[..k];
      if Delivers(l, steps[k], p) {
        AnswerByDistinctChunks(l, files, s, steps, p, k);
        IndicesGrow(l, p, steps, k, k + 1);
      }
    }
  }

  lemma CompletedOnceOrdered(l: Lengths, files: seq<FileInfo>, s: State, steps: seq<Step>, p: nat, j: nat, k: nat)
    requires FromCleared(l, files, s, steps, p)
    requires CompletedAt(l, files, s, steps, p, j) && CompletedAt(l, files, s, steps, p, k)
    ensures j >= k
  {
    if j < k {
      AnswerByDistinctChunks(l, files, s, steps, p, j);
      AnswerByDistinctChunks(l, files, s, steps, p, k);
      IndicesGrow(l, p, steps, j + 1, k);
    }
  }

  lemma CompletionMeansFull(l: Lengths, files: seq<FileInfo>, s: State, steps: seq<Step>, p: nat, k: nat)
    requires FromCleared(l, files, s, steps, p) && CompletedAt(l, files, s, steps, p, k)
    ensures Indices(l, p, steps) == AllChunks(l, p)
  {
    AnswerByDistinctChunks(l, files, s, steps, p, k);
    IndicesGrow(l, p, steps, k + 1, |steps|);
    assert steps[..|steps|] == steps;
  }

  lemma FullMeansCompletion(l: Lengths, files: seq<FileInfo>, s: State, steps: seq<Step>, p: nat)
    requires FromCleared(l, files, s, steps, p) && Indices(l, p, steps) == AllChunks(l, p)
    ensures exists k :: CompletedAt(l, files, s, steps, p, k)
  {
    assert steps[..|steps|] == steps;
    var k := FillingDelivery(l, p, steps, |steps|);
    AnswerByDistinctChunks(l, files, s, steps, p, k);
    assert CompletedAt(l, files, s, steps, p, k);
  }

  /** The delivery at which the set of distinct chunks first becomes full. */
  lemma {:induction false} FillingDelivery(l: Lengths, p: nat, steps: seq<Step>, n: nat) returns (k: nat)
    requires l.Valid() && p < l.TotalPieces() && n <= |steps|
    requires Indices(l, p, steps[..n]) == AllChunks(l, p)
    ensures k < n && Delivers(l, steps[k], p)
    ensures Indices(l, p, steps[..k]) != AllChunks(l, p) && Indices(l, p, steps[..k + 1]) == AllChunks(l, p)
  {
    ChunkCounts(l, p);
    assert 0 in AllChunks(l, p);
    assert steps[..n][..n - 1] == steps[..n - 1];
    if Indices(l, p, steps[..n - 1]) == AllChunks(l, p) {
      k := FillingDelivery(l, p, steps, n - 1);
    } else {
      k := n - 1;
    }
  }
}
