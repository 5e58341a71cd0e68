/** The chunk tracker: four bit fields and two caches kept in step with them. */
module ChunkTracker {
  import opened Prelude
  import opened Lengths
  import opened Files
  import opened ChunkState

  /** One bit per chunk, set for exactly the chunks of the pieces we have. */
  method ComputeChunkHaveStatus(l: Lengths, havePieces: seq<bool>) returns (r: Result<seq<bool>>)
    requires l.Valid()
    ensures r.Err? <==> |havePieces| < l.TotalPieces()
    ensures r.Ok? ==> |r.value| == l.ChunkBits()
    ensures r.Ok? ==> forall i :: 0 <= i < |r.value| ==>
      (r.value[i] <==> exists p :: 0 <= p < l.TotalPieces() && havePieces[p] && l.ChunkStart(p) <= i < l.ChunkEnd(p))
    ensures r.Ok? ==> forall p: nat, o: nat :: p < l.TotalPieces() && o < l.PieceLength(p) ==>
      BitOfByte(l, p, o) < |r.value| && (r.value[BitOfByte(l, p, o)] <==> havePieces[p])
  {
    if |havePieces| < l.TotalPieces() {
      return Err("have_pieces is shorter than total_pieces");
    }
    var bf := seq(l.ChunkBits(), _ => false);
    for piece := 0 to l.TotalPieces()
      invariant |bf| == l.ChunkBits()
      invariant forall i :: 0 <= i < |bf| ==>
        (bf[i] <==> exists p :: 0 <= p < piece && havePieces[p] && l.ChunkStart(p) <= i < l.ChunkEnd(p))
    {
      ChunkRangeFits(l, piece);
      if havePieces[piece] {
        ghost var before := bf;
        bf := Fill(bf, l.ChunkStart(piece), l.ChunkEnd(piece), true);
      }
    }
    forall p: nat, o: nat | p < l.TotalPieces() && o < l.PieceLength(p)
      ensures BitOfByte(l, p, o) < |bf| && (bf[BitOfByte(l, p, o)] <==> havePieces[p])
    {
      BitOfByteIsOwn(l, p, o);
      OwnerOfChunkBit(l, p, BitOfByte(l, p, o));
    }
    return Ok(bf);
  }

  /** The bit of the chunk that holds byte `o` of piece `p`: a full piece has as many bits as it takes
      chunks to cover it. */
  function BitOfByte(l: Lengths, p: nat, o: nat): nat {
    CeilDiv(l.pieceLength, CHUNK_SIZE) * p + o / CHUNK_SIZE
  }

  lemma BitOfByteIsOwn(l: Lengths, p: nat, o: nat)
    requires l.Valid() && p < l.TotalPieces() && o < l.PieceLength(p)
    ensures l.ChunkStart(p) <= BitOfByte(l, p, o) < l.ChunkEnd(p) <= l.ChunkBits()
  {
    ChunksCoverPiece(l, p, o, o / CHUNK_SIZE);
    ChunkRangeFits(l, p);
  }

  /** Needed means selected and not had. */
  method ComputeQueuedPieces(havePieces: seq<bool>, selectedPieces: seq<bool>) returns (r: Result<seq<bool>>)
    ensures r.Err? <==> |havePieces| != |selectedPieces|
    ensures r.Ok? ==> |r.value| == |havePieces| && Ones(r.value) == Ones(selectedPieces) - Ones(havePieces)
  {
    if |havePieces| != |selectedPieces| {
      return Err("have_pieces.len() != selected_pieces.len()");
    }
    return Ok(seq(|havePieces|, i requires 0 <= i < |havePieces| => !havePieces[i] && selectedPieces[i]));
  }

  method ComputeSelectedPieces(l: Lengths, onlyFiles: set<nat>, files: seq<FileInfo>) returns (bf: seq<bool>)
    requires Tiles(l, files)
    ensures |bf| == l.PieceBits() && Ones(bf) == SelectedBy(l, files, onlyFiles)
    ensures forall p: nat :: p in Ones(bf) <==> exists i: nat :: ChosenFor(l, files, onlyFiles, p, i)
  {
    bf := seq(l.PieceBits(), _ => false);
    PieceBitsFit(l);
    for id := 0 to |files|
      invariant |bf| == l.PieceBits()
      invariant forall p :: 0 <= p < |bf| ==> (bf[p] <==> WantedBefore(files, onlyFiles, id, p))
    {
      var f := files[id];
      assert InPlace(l, files, id);
      PieceInFileRange(l, f.firstPiece, f.offset, f.len);
      if !f.padding && id in onlyFiles {
        if f.firstPiece <= f.endPiece <= |bf| {
          bf := Fill(bf, f.firstPiece, f.endPiece, true);
        }
      }
    }
    forall p: nat
      ensures WantedBefore(files, onlyFiles, |files|, p) ==> p < l.TotalPieces()
      ensures p in SelectedBy(l, files, onlyFiles) <==> exists i: nat :: ChosenFor(l, files, onlyFiles, p, i)
    {
      WantedIsPiece(l, files, onlyFiles, |files|, p);
      SelectedExactly(l, files, onlyFiles, p);
    }
  }

  function NewlyMissing(selected: seq<bool>, previous: seq<bool>, have: seq<bool>): (b: seq<bool>)
    requires |selected| == |previous| == |have|
    ensures |b| == |have| && Ones(b) == Ones(selected) - Ones(previous) - Ones(have)
  {
    seq(|have|, i requires 0 <= i < |have| => selected[i] && !previous[i] && !have[i])
  }

  function KeepIfEither(queue: seq<bool>, selected: seq<bool>, have: seq<bool>): (q: seq<bool>)
    requires |queue| == |selected| == |have|
    ensures |q| == |queue| && Ones(q) == Ones(queue) * (Ones(selected) + Ones(have))
  {
    seq(|queue|, i requires 0 <= i < |queue| => queue[i] && (selected[i] || have[i]))
  }

  class ChunkTracker {
    const lengths: Lengths
    var queuePieces: seq<bool>
    var chunkStatus: seq<bool>
    var have: seq<bool>
    var selected: seq<bool>
    var perFileBytes: seq<nat>
    var hns: HaveNeededSelected

    /** The piece bit fields have a bit for every piece. */
    ghost predicate Indexed()
      reads this
    {
      lengths.Valid() && lengths.TotalPieces() <= |have| == |selected|
    }

    /** The bit fields have the sizes the lengths dictate. */
    ghost predicate Shaped()
      reads this
    {
      && lengths.Valid()
      && |queuePieces| == |have| == |selected| == lengths.PieceBits()
      && |chunkStatus| == lengths.ChunkBits()
    }

    /** ... and the cached statistics agree with recomputation. */
    ghost predicate Valid()
      reads this
    {
      Shaped() && hns == HnsOf(lengths, Ones(have), Ones(selected))
    }

    ghost function View(): ChunkState
      reads this
    {
      ChunkState(Ones(queuePieces), chunkStatus, Ones(have), Ones(selected), perFileBytes)
    }

    constructor (havePieces: seq<bool>, selectedPieces: seq<bool>, queue: seq<bool>, chunks: seq<bool>, l: Lengths,
        fileCount: nat)
      ensures have == havePieces && selected == selectedPieces && queuePieces == queue && chunkStatus == chunks
      ensures lengths == l && perFileBytes == seq(fileCount, _ => 0)
    {
      lengths := l;
      have, selected, queuePieces, chunkStatus := havePieces, selectedPieces, queue, chunks;
      perFileBytes := seq(fileCount, _ => 0);
      hns := HaveNeededSelected(0, 0, 0);
    }

    /** Build a tracker: it queues exactly what is selected and missing, marks exactly the chunks
        of the pieces had as written, and both caches start out equal to recomputation. Refused are
        bit fields of different lengths or shorter than the number of pieces. */
    static method New(havePieces: seq<bool>, selectedPieces: seq<bool>, l: Lengths, files: seq<FileInfo>)
      returns (r: Result<ChunkTracker>)
      requires Tiles(l, files)
      ensures r.Err? <==> |havePieces| != |selectedPieces| || |havePieces| < l.TotalPieces()
      ensures r.Ok? ==> fresh(r.value) && r.value.lengths == l
      ensures r.Ok? ==> r.value.hns == HnsOf(l, Ones(havePieces), Ones(selectedPieces))
      ensures r.Ok? && |selectedPieces| == l.PieceBits() ==> r.value.Valid()
      ensures r.Ok? ==>
        var v := r.value.View();
        && v.have == Ones(havePieces) && v.selected == Ones(selectedPieces)
        && v.queue == v.selected - v.have
        && ChunksFollowHave(l, v)
        && |v.perFile| == |files|
        && (forall f :: 0 <= f < |files| ==>
              files[f].firstPiece <= files[f].endPiece && v.perFile[f] == FileBytes(l, files[f], v.have))
    {
      var needed := ComputeQueuedPieces(havePieces, selectedPieces);
      if needed.Err? {
        return Err(needed.error);
      }
      var chunks := ComputeChunkHaveStatus(l, havePieces);
      if chunks.Err? {
        return Err(chunks.error);
      }
      var ct := new ChunkTracker(havePieces, selectedPieces, needed.value, chunks.value, l, |files|);
      ct.RecalculatePerFileBytes(files);
      ct.hns := ct.CalcHns();
      forall p | 0 <= p < l.TotalPieces()
        ensures ChunksFollow(l, ct.View(), p)
      {
        ChunkRangeFits(l, p);
        forall i | l.ChunkStart(p) <= i < l.ChunkEnd(p)
          ensures ct.chunkStatus[i] <==> havePieces[p]
        {
          OwnerOfChunkBit(l, p, i);
        }
      }
      return Ok(ct);
    }

    /** Recount, from the bit field, how many bytes of each file we have. */
    method RecalculatePerFileBytes(files: seq<FileInfo>)
      requires Indexed() && Tiles(lengths, files) && |perFileBytes| == |files|
      modifies this`perFileBytes
      ensures |perFileBytes| == |files|
      ensures forall f :: 0 <= f < |files| ==>
        files[f].firstPiece <= files[f].endPiece && perFileBytes[f] == FileBytes(lengths, files[f], Ones(have))
    {
      for k := 0 to |files|
        invariant |perFileBytes| == |files|
        invariant forall f :: 0 <= f < k ==>
          files[f].firstPiece <= files[f].endPiece && perFileBytes[f] == FileBytes(lengths, files[f], Ones(have))
      {
        assert InPlace(lengths, files, k);
        var sum := HaveBytesOfFile(files[k]);
        perFileBytes := perFileBytes[k := sum];
      }
    }

    method HaveBytesOfFile(f: FileInfo) returns (sum: nat)
      requires Indexed() && Placed(lengths, f)
      ensures f.firstPiece <= f.endPiece && sum == FileBytes(lengths, f, Ones(have))
    {
      PieceInFileRange(lengths, f.firstPiece, f.offset, f.len);
      sum := 0;
      for id := f.firstPiece to f.endPiece
        invariant sum == WSum(FileWeight(lengths, f), Ones(have), f.firstPiece, id)
      {
        if have[id] {
          sum := sum + lengths.SizeOfPieceInFile(id, f.offset, f.len);
        }
      }
    }

    /** One pass over the pieces recomputes the three statistics. */
    method CalcHns() returns (h: HaveNeededSelected)
      requires Indexed()
      ensures h == HnsOf(lengths, Ones(have), Ones(selected))
    {
      h := HaveNeededSelected(0, 0, 0);
      ghost var w, needed := PieceWeight(lengths), Ones(selected) - Ones(have);
      for id := 0 to lengths.TotalPieces()
        invariant h.haveBytes == WSum(w, Ones(have), 0, id)
        invariant h.neededBytes == WSum(w, needed, 0, id)
        invariant h.selectedBytes == WSum(w, Ones(selected), 0, id)
      {
        PieceLengthNat(lengths, id);
        var len := lengths.PieceLength(id);
        var isHave, isSelected := have[id], selected[id];
        h := HaveNeededSelected(
          h.haveBytes + (if isHave then len else 0),
          h.neededBytes + (if isSelected && !isHave then len else 0),
          h.selectedBytes + (if isSelected then len else 0));
      }
    }

    method ReserveNeededPiece(index: nat)
      requires Shaped() && index < lengths.TotalPieces()
      modifies this`queuePieces
      ensures Shaped() && View() == old(View()).(queue := old(View()).queue - {index})
    {
      PieceBitsFit(lengths);
      queuePieces := queuePieces[index := false];
      assert Ones(queuePieces) == old(Ones(queuePieces)) - {index};
    }

    /** Put a piece we do not have back in the queue and forget its chunks. */
    method MarkPieceBrokenIfNotHave(index: nat)
      requires Shaped() && index < lengths.TotalPieces()
      modifies this`queuePieces, this`chunkStatus
      ensures Shaped() && View() == Requeue(lengths, old(View()), {index})
    {
      PieceBitsFit(lengths);
      ChunkRangeFits(lengths, index);
      ClearNothing(lengths, chunkStatus);
      if index < |have| && have[index] {
        assert {index} - Ones(have) == {};
        return;
      }
      ClearOneMore(lengths, chunkStatus, {}, index);
      assert {index} - Ones(have) == {} + {index};
      queuePieces := queuePieces[index := true];
      assert Ones(queuePieces) == old(Ones(queuePieces)) + {index};
      if lengths.ChunkEnd(index) <= |chunkStatus| {
        chunkStatus := Fill(chunkStatus, lengths.ChunkStart(index), lengths.ChunkEnd(index), false);
      }
    }

    /** The incremental update of the statistics equals recomputation and never underflows. */
    method MarkPieceDownloaded(idx: nat)
      requires Valid() && idx < lengths.TotalPieces()
      modifies this`have, this`hns
      ensures Valid() && View() == old(View()).(have := old(View()).have + {idx})
    {
      PieceBitsFit(lengths);
      ghost var w, n, before, sel := PieceWeight(lengths), lengths.TotalPieces(), Ones(have), Ones(selected);
      if have[idx] {
        assert before + {idx} == before;
      } else {
        have := have[idx := true];
        assert Ones(have) == before + {idx};
        PieceLengthNat(lengths, idx);
        var len: nat := lengths.PieceLength(idx);
        WSumInsert(w, before, idx, 0, n);
        hns := hns.(haveBytes := hns.haveBytes + len);
        if selected[idx] {
          assert sel - before == (sel - Ones(have)) + {idx};
          WSumInsert(w, sel - Ones(have), idx, 0, n);
          hns := hns.(neededBytes := hns.neededBytes - len);
        } else {
          assert sel - before == sel - Ones(have);
        }
      }
    }

    /** Record a received block. Nothing happens unless it is exactly one chunk of a real piece. */
    method MarkChunkDownloaded(piece: nat, begin: nat, size: nat) returns (r: Option<ChunkMarkingResult>)
      requires Shaped()
      modifies this`chunkStatus
      ensures Shaped()
      ensures r.Some? <==> piece < lengths.TotalPieces() && lengths.ChunkOfReceived(piece, begin, size).Some?
      ensures r.Some? <==>
        && piece < lengths.TotalPieces() && begin % CHUNK_SIZE == 0 && begin < lengths.PieceLength(piece)
        && size == Min(CHUNK_SIZE, lengths.PieceLength(piece) - begin)
      ensures r.None? ==> View() == old(View())
      ensures r.Some? ==>
        && BitOfByte(lengths, piece, begin) < |old(chunkStatus)|
        && chunkStatus == old(chunkStatus)[BitOfByte(lengths, piece, begin) := true]
      ensures r.Some? ==>
        && lengths.ChunkEnd(piece) <= |chunkStatus|
        && (View(), r.value) == Deliver(lengths, old(View()), piece, lengths.ChunkOfReceived(piece, begin, size).value)
    {
      if piece >= lengths.TotalPieces() {
        return None;
      }
      AcceptedBlocks(lengths, piece, begin, size);
      var info := lengths.ChunkOfReceived(piece, begin, size);
      if info.None? {
        return None;
      }
      ChunkRangeFits(lengths, piece);
      var lo, hi := lengths.ChunkStart(piece), lengths.ChunkEnd(piece);
      if AllSet(chunkStatus, lo, hi) {
        return Some(PreviouslyCompleted);
      }
      chunkStatus := chunkStatus[lo + info.value := true];
      if AllSet(chunkStatus, lo, hi) {
        return Some(Completed);
      }
      return Some(NotCompleted);
    }

    /** Change which files are wanted. */
    method UpdateOnlyFiles(files: seq<FileInfo>, newOnlyFiles: set<nat>) returns (h: HaveNeededSelected)
      requires Valid() && Tiles(lengths, files)
      modifies this`queuePieces, this`chunkStatus, this`selected, this`hns
      ensures Valid() && h == hns
      ensures View() == Select(lengths, old(View()), SelectedBy(lengths, files, newOnlyFiles))
      ensures have == old(have)
      ensures forall p: nat :: p in Ones(selected) <==> exists i: nat :: ChosenFor(lengths, files, newOnlyFiles, p, i)
      ensures forall p: nat :: p in Ones(queuePieces) <==>
        if p in Ones(selected) then p in old(Ones(queuePieces)) || p !in old(Ones(selected)) + Ones(have)
        else p in old(Ones(queuePieces)) && p in Ones(have)
    {
      PieceBitsFit(lengths);
      ghost var start := View();
      var prevSelected := selected;
      selected := ComputeSelectedPieces(lengths, newOnlyFiles, files);
      ghost var chosen := Ones(selected);
      var b := NewlyMissing(selected, prevSelected, have);
      forall i | 0 <= i < |b| && b[i]
        ensures i < lengths.TotalPieces() && !have[i]
      {
        assert i in Ones(b);
      }
      RequeueMarked(b);
      queuePieces := KeepIfEither(queuePieces, selected, have);
      SelectInSteps(lengths, start, chosen);
      hns := CalcHns();
      h := hns;
    }

    /** Requeue every piece whose bit is set in `b`; none of them is had. */
    method RequeueMarked(b: seq<bool>)
      requires Shaped() && |b| == lengths.PieceBits()
      requires forall i :: 0 <= i < |b| && b[i] ==> i < lengths.TotalPieces() && !have[i]
      modifies this`queuePieces, this`chunkStatus
      ensures Shaped() && View() == Requeue(lengths, old(View()), Ones(b))
    {
      ghost var start, done := View(), {};
      ClearNothing(lengths, chunkStatus);
      assert {} - start.have == {};
      assert start.queue + {} == start.queue;
      for idx := 0 to |b|
        invariant Shaped()
        invariant done == Ones(b[..idx]) && done <= Ones(b)
        invariant View() == Requeue(lengths, start, done)
      {
        if b[idx] {
          if idx < lengths.TotalPieces() {
            ChunkRangeFits(lengths, idx);
            RequeueOneMore(lengths, start, done, idx);
            MarkPieceBrokenIfNotHave(idx);
            done := done + {idx};
          }
        }
        assert Ones(b[..idx + 1]) == if b[idx] then Ones(b[..idx]) + {idx} else Ones(b[..idx]);
      }
      assert b[..|b|] == b;
    }

    /** Count a completed piece towards a file; returns the bytes the file still lacks. */
    method UpdateFileHaveOnPieceCompleted(piece: nat, fileId: nat, f: FileInfo) returns (remaining: nat)
      requires fileId < |perFileBytes|
      modifies this`perFileBytes
      ensures perFileBytes ==
        old(perFileBytes)[fileId := old(perFileBytes[fileId]) + lengths.SizeOfPieceInFile(piece, f.offset, f.len)]
      ensures remaining == Max(0, f.len - perFileBytes[fileId])
    {
      var diff := lengths.SizeOfPieceInFile(piece, f.offset, f.len);
      perFileBytes := perFileBytes[fileId := perFileBytes[fileId] + diff];
      remaining := SaturatingSub(f.len, perFileBytes[fileId]);
    }

    /** The queued pieces in the order they are offered to peers. */
    function IterQueuedPieces(priorities: seq<nat>, files: seq<FileInfo>): seq<nat>
      requires lengths.Valid() && |perFileBytes| == |files|
      requires forall i :: 0 <= i < |files| ==> files[i].firstPiece <= files[i].endPiece
      reads this
    {
      QueuedOrder(lengths.TotalPieces(), Ones(queuePieces), perFileBytes, priorities, files)
    }
  }

  /** A chunk bit belongs to one piece only. */
  lemma OwnerOfChunkBit(l: Lengths, p: nat, i: nat)
    requires l.Valid() && p < l.TotalPieces() && l.ChunkStart(p) <= i < l.ChunkEnd(p)
    ensures forall q :: 0 <= q < l.TotalPieces() && l.ChunkStart(q) <= i < l.ChunkEnd(q) ==> q == p
  {
    forall q | 0 <= q < l.TotalPieces() && l.ChunkStart(q) <= i < l.ChunkEnd(q)
      ensures q == p
    {
      if q < p {
        ChunkRangesDisjoint(l, q, p);
      } else if p < q {
        ChunkRangesDisjoint(l, p, q);
      }
    }
  }

  /** Replacing the selection first and requeueing only what is missing comes to the same. */
  lemma SelectInSteps(l: Lengths, c: ChunkState, chosen: set<nat>)
    ensures var r := Requeue(l, c.(selected := chosen), chosen - c.selected - c.have);
      Select(l, c, chosen) == r.(queue := r.queue * (chosen + c.have))
  {
    assert chosen - c.selected - c.have - c.have == chosen - c.selected - c.have;
  }

  lemma RequeueOneMore(l: Lengths, c: ChunkState, s: set<nat>, p: nat)
    requires l.ChunkEnd(p) <= |c.chunkStatus|
    ensures Requeue(l, Requeue(l, c, s), {p}) == Requeue(l, c, s + {p})
  {
    var t := s - c.have;
    if p in c.have {
      assert (s + {p}) - c.have == t;
      assert {p} - c.have == {};
      ClearNothing(l, ClearChunks(l, c.chunkStatus, t));
    } else {
      assert (s + {p}) - c.have == t + {p};
      assert {p} - c.have == {} + {p};
      var mid := ClearChunks(l, c.chunkStatus, t);
      ClearNothing(l, mid);
      ClearOneMore(l, mid, {}, p);
      ClearOneMore(l, c.chunkStatus, t, p);
    }
  }
}
